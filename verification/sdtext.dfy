/**
 * Structured-data text (section 6.3 of RFC 5424): the quote-aware scanner, parameter lookup,
 * escaping and element rendering, each defined on the remaining text.
 */
module SdText {
  import opened Wrappers
  import opened Octets

  // ---------- Text at a position ----------

  /** `t` stands in `s` at offset `i`. */
  predicate At(s: string, i: nat, t: string) {
    i + |t| <= |s| && forall k :: 0 <= k < |t| ==> s[i + k] == t[k]
  }

  lemma AtSlice(s: string, i: nat, t: string)
    ensures At(s, i, t) <==> i + |t| <= |s| && s[i..i + |t|] == t
  {
    if i + |t| <= |s| {
      var part := s[i..i + |t|];
      assert forall k :: 0 <= k < |t| ==> part[k] == s[i + k];
    }
  }

  lemma AtConcat(s: string, i: nat, a: string, b: string)
    requires At(s, i, a + b)
    ensures At(s, i, a) && At(s, i + |a|, b)
  {
    assert forall k :: 0 <= k < |a| ==> (a + b)[k] == a[k];
    assert forall k :: 0 <= k < |b| ==> (a + b)[|a| + k] == b[k];
  }

  lemma AtParts(a: string, b: string, c: string)
    ensures At(a + b + c, |a|, b) && At(a + b + c, 0, a) && At(a + b + c, |a| + |b|, c)
  {
  }

  lemma Around(line: string, before: string, element: string, after: string)
    requires line == before + element + after
    ensures line[..|before|] == before && line[|before| + |element|..] == after
    ensures line[|before|..|before| + |element|] == element
  {
  }

  lemma AtTwice(s: string, i: nat, a: string, x: char, b: string, y: char)
    requires At(s, i, a + [x]) && At(s, i, b + [y]) && |a| < |b|
    ensures x in b
  {
    assert (a + [x])[|a|] == x;
    assert (b + [y])[|a|] == b[|a|];
  }

  /** Delimited tokens that stand at the same place are equal. */
  lemma TokenAt(s: string, i: nat, a: string, x: char, b: string, y: char)
    requires At(s, i, a + [x]) && At(s, i, b + [y])
    requires x !in b && y !in a
    ensures a == b && x == y
  {
    if |a| < |b| {
      AtTwice(s, i, a, x, b, y);
    } else if |b| < |a| {
      AtTwice(s, i, b, y, a, x);
    }
    assert forall k :: 0 <= k < |a| ==> (a + [x])[k] == a[k] && (b + [y])[k] == b[k];
    assert (a + [x])[|a|] == x && (b + [y])[|b|] == y;
    assert a == b;
  }

  /** Offset of the first occurrence of `pat` at or after `i`. */
  function Find(s: string, pat: string, i: nat): (r: Option<nat>)
    ensures r.Some? ==> i <= r.value && At(s, r.value, pat)
    ensures forall k :: i <= k && (r.Some? ==> k < r.value) ==> !At(s, k, pat)
    decreases |s| - i
  {
    if i + |pat| > |s| then None
    else if At(s, i, pat) then Some(i)
    else if i == |s| then None
    else Find(s, pat, i + 1)
  }

  ghost predicate Contains(s: string, pat: string) {
    exists i: nat :: At(s, i, pat)
  }

  /** A marker: a bracket that occurs nowhere else in the pattern, so occurrences never overlap. */
  predicate IsMarker(pat: string) {
    && |pat| > 1 && pat[0] == '['
    && (forall i :: 0 < i < |pat| ==> pat[i] != '[')
    && ']' !in pat && '"' !in pat
  }

  lemma Straddle(before: string, pat: string, rest: string, i: nat)
    requires pat != "" && i < |before| < i + |pat| && At(before + pat + rest, i, pat)
    ensures pat[|before| - i] == pat[0]
  {
    AtParts(before, pat, rest);
    assert (before + pat + rest)[|before| + 0] == pat[0];
    assert (before + pat + rest)[i + (|before| - i)] == pat[|before| - i];
  }

  lemma EarlyMatch(before: string, pat: string, rest: string, i: nat)
    requires IsMarker(pat) && i < |before| && At(before + pat + rest, i, pat)
    ensures At(before, i, pat)
  {
    if |before| < i + |pat| {
      Straddle(before, pat, rest, i);
    }
    assert forall k :: 0 <= k < |before| ==> (before + pat + rest)[k] == before[k];
  }

  /** A marker preceded by text free of it is found where it stands. */
  lemma FindAfter(before: string, pat: string, rest: string)
    requires IsMarker(pat) && !Contains(before, pat)
    ensures Find(before + pat + rest, pat, 0) == Some(|before|)
  {
    var s := before + pat + rest;
    AtParts(before, pat, rest);
    forall i: nat | i < |before| ensures !At(s, i, pat) {
      if At(s, i, pat) {
        EarlyMatch(before, pat, rest, i);
      }
    }
  }

  // ---------- Scanning ----------

  /** Offset of the closing quote, skipping escaped characters; |s| when there is none. */
  function QuotedEnd(s: string, i: nat): (n: nat)
    requires i <= |s|
    ensures i <= n <= |s|
    ensures n < |s| ==> s[n] == '"'
    decreases |s| - i
  {
    if i == |s| || s[i] == '"' then i
    else if s[i] == '\\' && i + 1 < |s| then QuotedEnd(s, i + 2)
    else QuotedEnd(s, i + 1)
  }

  /** Offset just past the closing bracket, or None when the element never closes. */
  function ScanElement(s: string, i: nat): (r: Option<nat>)
    requires i <= |s|
    ensures r.Some? ==> i < r.value <= |s| && s[r.value - 1] == ']'
    decreases |s| - i
  {
    if i == |s| then None
    else if s[i] == ']' then Some(i + 1)
    else if s[i] == '"' then ScanValue(s, i + 1)
    else ScanElement(s, i + 1)
  }

  /** The same, starting inside a quoted value. */
  function ScanValue(s: string, i: nat): (r: Option<nat>)
    requires i <= |s|
    ensures r.Some? ==> i < r.value <= |s| && s[r.value - 1] == ']'
    decreases |s| - i
  {
    if i == |s| then None
    else if s[i] == '"' then ScanElement(s, i + 1)
    else if s[i] == '\\' && i + 1 < |s| then ScanValue(s, i + 2)
    else ScanValue(s, i + 1)
  }

  /** The scan reaches the end of the text inside a quoted value. */
  predicate OpenQuote(s: string, i: nat)
    requires i <= |s|
    decreases |s| - i
  {
    if i == |s| || s[i] == ']' then false
    else if s[i] == '"' then OpenValue(s, i + 1)
    else OpenQuote(s, i + 1)
  }

  predicate OpenValue(s: string, i: nat)
    requires i <= |s|
    decreases |s| - i
  {
    if i == |s| then true
    else if s[i] == '"' then OpenQuote(s, i + 1)
    else if s[i] == '\\' && i + 1 < |s| then OpenValue(s, i + 2)
    else OpenValue(s, i + 1)
  }

  lemma {:induction false} ScanValueEnd(s: string, i: nat)
    requires i <= |s|
    ensures var q := QuotedEnd(s, i);
            ScanValue(s, i) == if q < |s| then ScanElement(s, q + 1) else None
    decreases |s| - i
  {
    if i < |s| && s[i] != '"' {
      ScanValueEnd(s, if s[i] == '\\' && i + 1 < |s| then i + 2 else i + 1);
    }
  }

  /** A wire-form value: every quote in it is escaped and no escape is left open. */
  predicate IsClosed(v: string) {
    v == "" ||
    (v[0] != '"' && if v[0] == '\\' then |v| > 1 && IsClosed(v[2..]) else IsClosed(v[1..]))
  }

  lemma {:induction false} QuotedEndClosed(s: string, i: nat, v: string)
    requires IsClosed(v) && At(s, i, v) && i + |v| < |s| && s[i + |v|] == '"'
    ensures QuotedEnd(s, i) == i + |v|
    decreases |v|
  {
    if v != "" {
      var k := if v[0] == '\\' then 2 else 1;
      assert s[i + 0] == v[0];
      assert At(s, i + k, v[k..]) by {
        assert forall j :: 0 <= j < |v| - k ==> v[k..][j] == v[k + j];
      }
      QuotedEndClosed(s, i + k, v[k..]);
    }
  }

  lemma {:induction false} PlainIsClosed(v: string)
    requires IsPlain(v)
    ensures IsClosed(v)
  {
    if v != "" {
      assert v[0] in v;
      assert forall c :: c in v[1..] ==> c in v;
      PlainIsClosed(v[1..]);
    }
  }

  // ---------- Parameters ----------

  datatype Param = Param(key: string, value: string)

  /** A parameter or element name: nothing that delimits names. */
  predicate IsName(s: string) {
    s != "" && forall c :: c in s ==> c != ' ' && c != '=' && c != '"' && c != ']'
  }

  predicate IsParam(p: Param) {
    IsName(p.key) && IsClosed(p.value)
  }

  predicate AreParams(ps: seq<Param>) {
    forall i :: 0 <= i < |ps| ==> IsParam(ps[i])
  }

  function RenderParam(p: Param): string {
    p.key + "=\"" + p.value + "\""
  }

  /** Parameters separated by single spaces. */
  function RenderBody(ps: seq<Param>): string {
    if ps == [] then ""
    else if |ps| == 1 then RenderParam(ps[0])
    else RenderParam(ps[0]) + " " + RenderBody(ps[1..])
  }

  lemma RenderParamAt(s: string, i: nat, p: Param)
    requires At(s, i, RenderParam(p))
    ensures var v := i + |p.key| + 2;
            && |RenderParam(p)| == |p.key| + |p.value| + 3
            && At(s, i, p.key + ['=']) && s[v - 1] == '"' && At(s, v, p.value) && s[v + |p.value|] == '"'
  {
    var quoted := "\"" + p.value + "\"";
    assert RenderParam(p) == (p.key + ['=']) + quoted;
    AtConcat(s, i, p.key + ['='], quoted);
    assert quoted == "\"" + (p.value + "\"");
    AtConcat(s, i + |p.key| + 1, "\"", p.value + "\"");
    AtConcat(s, i + |p.key| + 2, p.value, "\"");
    assert "\""[0] == '"';
  }

  lemma RenderBodySplit(ps: seq<Param>)
    requires |ps| > 1
    ensures RenderBody(ps) == RenderParam(ps[0]) + ([' '] + RenderBody(ps[1..]))
  {
  }

  lemma AtJoined(s: string, i: nat, t: string, a: string, c: char, b: string)
    requires At(s, i, t) && t == a + ([c] + b)
    ensures At(s, i, a) && s[i + |a|] == c && At(s, i + |a| + 1, b)
  {
    AtConcat(s, i, a, [c] + b);
    AtConcat(s, i + |a|, [c], b);
    assert [c][0] == c;
  }

  lemma RenderBodyAt(s: string, i: nat, ps: seq<Param>)
    requires ps != [] && At(s, i, RenderBody(ps))
    ensures At(s, i, RenderParam(ps[0]))
    ensures |ps| == 1 ==> RenderBody(ps) == RenderParam(ps[0])
    ensures |ps| > 1 ==>
              var j := i + |RenderParam(ps[0])|;
              && j < |s| && s[j] == ' ' && At(s, j + 1, RenderBody(ps[1..]))
              && i + |RenderBody(ps)| == j + 1 + |RenderBody(ps[1..])|
  {
    if |ps| > 1 {
      RenderBodySplit(ps);
      AtJoined(s, i, RenderBody(ps), RenderParam(ps[0]), ' ', RenderBody(ps[1..]));
    }
  }

  /** `key="` stands at `i`, at the start of the body or after a space. */
  predicate KeyAt(s: string, key: string, i: nat) {
    && i + |key| + 2 <= |s|
    && (i == 0 || s[i - 1] == ' ')
    && At(s, i, key) && s[i + |key|] == '=' && s[i + |key| + 1] == '"'
  }

  /** The value of the first `key="..."` at or after `i`. */
  function GetParam(s: string, key: string, i: nat): (r: Option<string>)
    decreases |s| - i
  {
    if i + |key| + 2 > |s| then None
    else if KeyAt(s, key, i) then
      var v := i + |key| + 2;
      var n := QuotedEnd(s, v);
      if n < |s| then Some(s[v..n]) else None
    else GetParam(s, key, i + 1)
  }

  function Lookup(ps: seq<Param>, key: string): Option<string> {
    if ps == [] then None else if ps[0].key == key then Some(ps[0].value) else Lookup(ps[1..], key)
  }

  lemma {:induction false} GetParamSkip(s: string, key: string, i: nat, j: nat)
    requires 0 < i <= j <= |s| && forall k :: i - 1 <= k < j - 1 ==> s[k] != ' '
    ensures GetParam(s, key, i) == GetParam(s, key, j)
    decreases j - i
  {
    if i < j {
      GetParamSkip(s, key, i + 1, j);
    }
  }

  lemma GetParamHere(s: string, i: nat, p: Param)
    requires IsParam(p) && At(s, i, RenderParam(p)) && (i == 0 || s[i - 1] == ' ')
    ensures GetParam(s, p.key, i) == Some(p.value)
  {
    RenderParamAt(s, i, p);
    AtConcat(s, i, p.key, ['=']);
    var v := i + |p.key| + 2;
    assert KeyAt(s, p.key, i) by {
      assert (p.key + ['='])[|p.key|] == '=';
    }
    QuotedEndClosed(s, v, p.value);
    AtSlice(s, v, p.value);
  }

  lemma NoKeyElsewhere(s: string, i: nat, p: Param, key: string)
    requires IsParam(p) && IsName(key) && p.key != key && At(s, i, RenderParam(p))
    ensures !KeyAt(s, key, i)
  {
    RenderParamAt(s, i, p);
    if KeyAt(s, key, i) {
      assert At(s, i, key + ['=']) by {
        assert forall k :: 0 <= k < |key| ==> (key + ['='])[k] == key[k];
      }
      TokenAt(s, i, key, '=', p.key, '=');
    }
  }

  lemma GetParamOther(s: string, i: nat, p: Param, key: string)
    requires IsParam(p) && ' ' !in p.value && IsName(key) && p.key != key && At(s, i, RenderParam(p))
    ensures GetParam(s, key, i) == GetParam(s, key, i + |RenderParam(p)|)
  {
    var j := i + |RenderParam(p)|;
    NoKeyElsewhere(s, i, p, key);
    forall k | i <= k < j - 1 ensures s[k] != ' ' {
      var c := RenderParam(p)[k - i];
      assert s[i + (k - i)] == c;
      assert c in p.key || c == '=' || c == '"' || c in p.value;
    }
    RenderParamAt(s, i, p);
    assert s[j - 1] == '"';
    GetParamSkip(s, key, i + 1, j);
  }

  /** Looking a key up in a rendered body finds the parameter's own value, or nothing. */
  lemma {:induction false} GetParamRendered(s: string, i: nat, ps: seq<Param>, key: string)
    requires AreParams(ps) && (forall k :: 0 <= k < |ps| ==> ' ' !in ps[k].value) && IsName(key)
    requires At(s, i, RenderBody(ps)) && i + |RenderBody(ps)| == |s| && (i == 0 || s[i - 1] == ' ')
    ensures GetParam(s, key, i) == Lookup(ps, key)
    decreases |ps|
  {
    if ps != [] {
      RenderBodyAt(s, i, ps);
      var j := i + |RenderParam(ps[0])|;
      if ps[0].key == key {
        GetParamHere(s, i, ps[0]);
      } else {
        GetParamOther(s, i, ps[0], key);
        if |ps| > 1 {
          RenderParamAt(s, i, ps[0]);
          assert s[j - 1] == '"';
          GetParamSkip(s, key, j, j + 1);
          GetParamRendered(s, j + 1, ps[1..], key);
        }
      }
    }
  }

  // ---------- Elements ----------

  lemma {:induction false} ScanName(s: string, i: nat, j: nat)
    requires i <= j <= |s| && forall k :: i <= k < j ==> s[k] != ']' && s[k] != '"'
    ensures ScanElement(s, i) == ScanElement(s, j)
    decreases j - i
  {
    if i < j {
      ScanName(s, i + 1, j);
    }
  }

  lemma ScanParam(s: string, i: nat, p: Param)
    requires IsParam(p) && At(s, i, RenderParam(p))
    ensures ScanElement(s, i) == ScanElement(s, i + |RenderParam(p)|)
  {
    RenderParamAt(s, i, p);
    var j := i + |p.key| + 1;
    forall k | i <= k < j ensures s[k] != ']' && s[k] != '"' {
      assert s[i + (k - i)] == (p.key + ['='])[k - i];
      assert k < j - 1 ==> s[k] in p.key;
    }
    ScanName(s, i, j);
    QuotedEndClosed(s, j + 1, p.value);
    ScanValueEnd(s, j + 1);
  }

  /** Scanning a rendered body stops exactly at the bracket that closes it. */
  lemma {:induction false} ScanRendered(s: string, i: nat, ps: seq<Param>)
    requires AreParams(ps) && At(s, i, RenderBody(ps))
    requires var j := i + |RenderBody(ps)|; j < |s| && s[j] == ']'
    ensures ScanElement(s, i) == Some(i + |RenderBody(ps)| + 1)
    decreases |ps|
  {
    if ps != [] {
      RenderBodyAt(s, i, ps);
      ScanParam(s, i, ps[0]);
      if |ps| > 1 {
        var j := i + |RenderParam(ps[0])|;
        ScanRendered(s, j + 1, ps[1..]);
        assert ScanElement(s, j) == ScanElement(s, j + 1);
      }
    }
  }

  // ---------- Escaping (section 6.3.3 of RFC 5424) ----------

  predicate NeedsEscape(c: char) {
    c == '\\' || c == '"' || c == ']'
  }

  function EscapeChar(c: char): (s: string)
    ensures 1 <= |s| <= 2
  {
    if NeedsEscape(c) then ['\\', c] else [c]
  }

  function Escape(v: string): (s: string)
    ensures |v| <= |s| <= 2 * |v|
  {
    if v == "" then "" else Escape(v[..|v| - 1]) + EscapeChar(v[|v| - 1])
  }

  function Unescape(s: string): string {
    if s == "" then ""
    else if s[0] == '\\' && |s| > 1 then [s[1]] + Unescape(s[2..])
    else [s[0]] + Unescape(s[1..])
  }

  lemma {:induction false} EscapeCons(v: string)
    requires v != ""
    ensures Escape(v) == EscapeChar(v[0]) + Escape(v[1..])
    decreases |v|, 1
  {
    if |v| == 1 {
      assert Escape(v[..0]) == "" && Escape(v[1..]) == "";
    } else {
      EscapeConsStep(v);
    }
  }

  lemma {:induction false} EscapeConsStep(v: string)
    requires |v| > 1
    ensures Escape(v) == EscapeChar(v[0]) + Escape(v[1..])
    decreases |v|, 0
  {
    var front, last := v[..|v| - 1], v[|v| - 1];
    EscapeCons(front);
    assert front[1..] == v[1..][..|v| - 2] && v[1..][|v| - 2] == last;
    Associative(EscapeChar(v[0]), Escape(front[1..]), EscapeChar(last));
  }

  lemma Associative(a: string, b: string, c: string)
    ensures (a + b) + c == a + (b + c)
  {
  }

  /** A PARAM-VALUE: quotes, backslashes and closing brackets appear only behind a backslash. */
  predicate IsParamValue(s: string) {
    s == "" ||
    if s[0] == '\\' then |s| > 1 && NeedsEscape(s[1]) && IsParamValue(s[2..])
    else !NeedsEscape(s[0]) && IsParamValue(s[1..])
  }

  /** Such a value never closes its own quotes. */
  lemma {:induction false} ParamValueIsClosed(s: string)
    requires IsParamValue(s)
    ensures IsClosed(s)
  {
    if s != "" {
      ParamValueIsClosed(if s[0] == '\\' then s[2..] else s[1..]);
    }
  }

  /** Escaping gives a PARAM-VALUE, and unescaping recovers what was escaped. */
  lemma {:induction false} EscapeRoundTrip(v: string)
    ensures Unescape(Escape(v)) == v
    ensures IsParamValue(Escape(v))
  {
    if v != "" {
      EscapeCons(v);
      EscapeRoundTrip(v[1..]);
      var s := Escape(v);
      if NeedsEscape(v[0]) {
        assert s[2..] == Escape(v[1..]) && s[1] == v[0];
      } else {
        assert s[1..] == Escape(v[1..]);
      }
      assert [v[0]] + v[1..] == v;
    }
  }
}

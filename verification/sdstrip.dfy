/** Removal of every element with a given identifier from a structured-data section. */
module SdStrip {
  import opened Wrappers
  import opened SdText

  /** What is left of `s` from `i` on once every element opened by `mark` is gone. */
  function StripAll(s: string, mark: string, i: nat): (r: string)
    requires i <= |s|
    ensures |r| <= |s| - i
    decreases |s| - i
  {
    if i == |s| then ""
    else if At(s, i, mark) then
      match ScanElement(s, i + |mark|)
      case Some(end) => StripAll(s, mark, end)
      case None => ""
    else [s[i]] + StripAll(s, mark, i + 1)
  }

  /** Stripping copies everything up to the first mark. */
  lemma {:induction false} StripCopies(s: string, mark: string, i: nat, j: nat)
    requires i <= j <= |s| && forall k :: i <= k < j ==> !At(s, k, mark)
    ensures StripAll(s, mark, i) == s[i..j] + StripAll(s, mark, j)
    decreases j - i
  {
    hide At, StripAll, ScanElement;
    if i < j {
      StripCopies(s, mark, i + 1, j);
      StripStep(s, mark, i);
      SliceCons(s, i, j);
      Associative([s[i]], s[i + 1..j], StripAll(s, mark, j));
    } else {
      assert s[i..j] == "";
    }
  }

  lemma SliceCons(s: string, i: nat, j: nat)
    requires i < j <= |s|
    ensures s[i..j] == [s[i]] + s[i + 1..j]
  {
  }

  /** For every text and mark: stripping changes the text exactly when the mark occurs in it. */
  lemma {:induction false} StripFixpoint(s: string, mark: string)
    requires mark != ""
    ensures StripAll(s, mark, 0) == s <==> !Contains(s, mark)
  {
    if Contains(s, mark) {
      var i: nat :| At(s, i, mark);
      StripShrinks(s, mark, 0, i);
    } else {
      StripCopies(s, mark, 0, |s|);
      assert s[0..|s|] == s;
    }
  }

  lemma {:induction false} StripShrinks(s: string, mark: string, i: nat, j: nat)
    requires mark != "" && i <= j && At(s, j, mark)
    ensures |StripAll(s, mark, i)| < |s| - i
    decreases j - i
  {
    hide ScanElement;
    if !At(s, i, mark) {
      StripShrinks(s, mark, i + 1, j);
    }
  }

  // ---------- When a second strip changes the result ----------

  /** How many characters of the mark end the kept text once `c` is kept behind `k` of them. */
  function Matched(mark: string, k: nat, c: char): (k': nat)
    requires k < |mark|
    ensures k' <= |mark|
  {
    if c == mark[k] then k + 1 else if c == '[' then 1 else 0
  }

  /** The text, read behind `k` characters of the mark, completes it. */
  predicate Spells(t: string, mark: string, k: nat)
    requires k < |mark|
  {
    t != "" && var k' := Matched(mark, k, t[0]); k' == |mark| || Spells(t[1..], mark, k')
  }

  /**
   * Walks the text as a strip of the elements opened by `strip` does, from `i` on and behind kept text
   * that ends in `k` characters of `mark`, and goes on into the text that follows: the kept characters
   * come to spell the mark, across whatever is removed between them.
   */
  predicate Glues(s: string, strip: string, mark: string, i: nat, k: nat, rest: string)
    requires i <= |s| && k < |mark|
    decreases |s| - i
  {
    if i == |s| then Spells(rest, mark, k)
    else if At(s, i, strip) then
      match ScanElement(s, i + |strip|)
      case Some(end) => Glues(s, strip, mark, end, k, rest)
      case None => Spells(rest, mark, k)
    else
      var k' := Matched(mark, k, s[i]);
      k' == |mark| || Glues(s, strip, mark, i + 1, k', rest)
  }

  predicate EndsWith(t: string, mark: string, j: nat) {
    j <= |t| && j <= |mark| && t[|t| - j..] == mark[..j]
  }

  /** `k` is the length of the longest start of the mark that ends the text, which is free of the mark. */
  ghost predicate IsMatched(t: string, mark: string, k: nat) {
    && k < |mark| && EndsWith(t, mark, k) && !Contains(t, mark)
    && forall j :: k < j <= |mark| ==> !EndsWith(t, mark, j)
  }

  lemma EndsWithSnoc(t: string, mark: string, j: nat, c: char)
    requires 0 < j <= |mark|
    ensures EndsWith(t + [c], mark, j) <==> EndsWith(t, mark, j - 1) && mark[j - 1] == c
  {
    var t' := t + [c];
    if j <= |t'| {
      var n := |t'| - j;
      assert t'[n..] == t[n..] + [c] && mark[..j] == mark[..j - 1] + [mark[j - 1]];
      assert t[n..] == t'[n..][..j - 1] && mark[..j - 1] == mark[..j][..j - 1];
      assert t'[n..][j - 1] == c && mark[..j][j - 1] == mark[j - 1];
    }
  }

  lemma AtShorter(t: string, c: char, i: nat, mark: string)
    requires At(t + [c], i, mark) && i + |mark| <= |t|
    ensures At(t, i, mark)
  {
    forall k | 0 <= k < |mark| ensures t[i + k] == mark[k] {
      assert (t + [c])[i + k] == mark[k];
    }
  }

  lemma ContainsSnoc(t: string, mark: string, c: char)
    requires mark != ""
    ensures Contains(t + [c], mark) <==> Contains(t, mark) || EndsWith(t + [c], mark, |mark|)
  {
    var t' := t + [c];
    assert mark[..|mark|] == mark;
    if Contains(t', mark) {
      var i: nat :| At(t', i, mark);
      AtSlice(t', i, mark);
      if i + |mark| == |t'| {
        assert t'[i..] == t'[i..i + |mark|];
      } else {
        AtShorter(t, c, i, mark);
      }
    }
    if Contains(t, mark) {
      var i: nat :| At(t, i, mark);
      assert At(t', i, mark);
    }
    if EndsWith(t', mark, |mark|) {
      var i := |t'| - |mark|;
      assert forall k :: 0 <= k < |mark| ==> t'[i + k] == t'[i..][k];
      assert At(t', i, mark);
    }
  }

  /** Of two starts of a mark that end one text, the longer repeats the first character inside. */
  lemma OverlapRepeats(t: string, mark: string, j: nat, k: nat)
    requires EndsWith(t, mark, j) && EndsWith(t, mark, k) && 0 < j < k
    ensures mark[k - j] == mark[0]
  {
    assert t[|t| - j..][0] == mark[..j][0];
    assert t[|t| - k..][k - j] == mark[..k][k - j];
  }

  lemma MatchedStep(t: string, mark: string, k: nat, c: char)
    requires IsMarker(mark) && IsMatched(t, mark, k)
    ensures var k' := Matched(mark, k, c);
            if k' == |mark| then Contains(t + [c], mark) else IsMatched(t + [c], mark, k')
  {
    hide EndsWith, Contains;
    var t', k' := t + [c], Matched(mark, k, c);
    ContainsSnoc(t, mark, c);
    EndsWithNothing(t, mark);
    EndsWithNothing(t', mark);
    if k' > 0 {
      EndsWithSnoc(t, mark, k', c);
    }
    forall j | k' < j <= |mark| ensures !EndsWith(t', mark, j) {
      EndsWithSnoc(t, mark, j, c);
      if EndsWith(t, mark, j - 1) && 0 < j - 1 < k {
        OverlapRepeats(t, mark, j - 1, k);
      }
    }
  }

  lemma EndsWithNothing(t: string, mark: string)
    ensures EndsWith(t, mark, 0)
  {
  }

  lemma {:induction false} SpellWalk(rest: string, mark: string, t: string, k: nat)
    requires IsMarker(mark) && k < |mark| && IsMatched(t, mark, k)
    ensures Spells(rest, mark, k) <==> Contains(t + rest, mark)
    decreases |rest|
  {
    hide Contains, IsMatched, Matched, IsMarker;
    if rest == "" {
      assert t + "" == t;
      MatchedIsFree(t, mark, k);
    } else {
      var k', more := Matched(mark, k, rest[0]), rest[1..];
      assert t + rest == t + [rest[0]] + more;
      MatchedStep(t, mark, k, rest[0]);
      if k' == |mark| {
        ContainsMore(t + [rest[0]], more, mark);
      } else {
        SpellWalk(more, mark, t + [rest[0]], k');
      }
    }
  }

  lemma {:induction false} GlueWalk(
    s: string, strip: string, mark: string, i: nat, t: string, k: nat, rest: string)
    requires IsMarker(mark) && i <= |s| && k < |mark| && IsMatched(t, mark, k)
    ensures Glues(s, strip, mark, i, k, rest) <==> Contains(t + StripAll(s, strip, i) + rest, mark)
    decreases |s| - i
  {
    hide Contains, ScanElement, IsMatched, Matched, IsMarker, Spells;
    if i == |s| || (At(s, i, strip) && ScanElement(s, i + |strip|).None?) {
      assert t + "" == t;
      SpellWalk(rest, mark, t, k);
    } else if At(s, i, strip) {
      GlueWalk(s, strip, mark, ScanElement(s, i + |strip|).value, t, k, rest);
    } else {
      var k', more := Matched(mark, k, s[i]), StripAll(s, strip, i + 1);
      Associative(t, [s[i]], more);
      MatchedStep(t, mark, k, s[i]);
      if k' == |mark| {
        ContainsMore(t + [s[i]], more, mark);
        ContainsMore(t + [s[i]] + more, rest, mark);
      } else {
        GlueWalk(s, strip, mark, i + 1, t + [s[i]], k', rest);
      }
    }
  }

  lemma MatchedIsFree(t: string, mark: string, k: nat)
    requires IsMatched(t, mark, k)
    ensures !Contains(t, mark)
  {
  }

  lemma ContainsMore(t: string, rest: string, mark: string)
    requires Contains(t, mark)
    ensures Contains(t + rest, mark)
  {
    var i: nat :| At(t, i, mark);
    assert At(t + rest, i, mark);
  }

  /**
   * Removing elements can bring the two halves of a mark together, be it their own mark or another one.
   * For every text, every mark and whatever follows, the stripped text contains the mark exactly when
   * the walk over the original text comes to spell it.
   */
  lemma StripLeaves(s: string, strip: string, mark: string, rest: string)
    requires IsMarker(mark)
    ensures Contains(StripAll(s, strip, 0) + rest, mark) <==> Glues(s, strip, mark, 0, 0, rest)
  {
    hide At, StripAll, Glues, Contains;
    var once := StripAll(s, strip, 0);
    NothingMatched(mark);
    GlueWalk(s, strip, mark, 0, "", 0, rest);
    assert "" + once + rest == once + rest;
  }

  /** A second strip changes nothing exactly when the walk never glues the mark of the first. */
  lemma StripTwice(s: string, mark: string)
    requires IsMarker(mark)
    ensures var once := StripAll(s, mark, 0);
            && (StripAll(once, mark, 0) == once <==> !Glues(s, mark, mark, 0, 0, ""))
            && (Contains(once, mark) <==> Glues(s, mark, mark, 0, 0, ""))
  {
    hide At, StripAll, Glues, Contains;
    var once := StripAll(s, mark, 0);
    StripLeaves(s, mark, mark, "");
    assert once + "" == once;
    StripFixpoint(once, mark);
  }

  lemma NothingMatched(mark: string)
    requires mark != ""
    ensures IsMatched("", mark, 0)
  {
  }

  // ---------- Sections of well-formed elements ----------

  datatype Element = Element(id: string, params: seq<Param>)

  predicate IsElement(e: Element) {
    IsName(e.id) && '[' !in e.id && AreParams(e.params)
  }

  function RenderElement(e: Element): string {
    if e.params == [] then "[" + e.id + "]" else Mark(e.id) + RenderBody(e.params) + "]"
  }

  function Mark(id: string): string {
    "[" + id + " "
  }

  function RenderAll(es: seq<Element>): string {
    if es == [] then "" else RenderElement(es[0]) + RenderAll(es[1..])
  }

  /** The elements a strip for `id` removes: an element without parameters has no space to match. */
  predicate IsTarget(e: Element, id: string) {
    e.id == id && e.params != []
  }

  function Others(es: seq<Element>, id: string): (r: seq<Element>)
    ensures forall e :: e in r <==> e in es && !IsTarget(e, id)
  {
    if es == [] then []
    else if IsTarget(es[0], id) then Others(es[1..], id)
    else [es[0]] + Others(es[1..], id)
  }

  lemma MarkIsMarker(id: string)
    requires IsName(id) && '[' !in id
    ensures IsMarker(Mark(id))
  {
    var m := Mark(id);
    forall i | 0 < i < |m| ensures m[i] != '[' && m[i] != ']' && m[i] != '"' {
      assert i < |m| - 1 ==> m[i] == id[i - 1] && m[i] in id;
    }
  }

  /**
   * The second strip matters for every identifier: an element cut off behind its name, an element
   * of that identifier, and a space leave the mark behind.
   */
  lemma StripCanGlue(id: string, rest: string)
    requires IsName(id) && '[' !in id && rest != "" && rest[0] == ' ' && '[' !in rest
    ensures StripAll("[" + id + (Mark(id) + "]") + rest, Mark(id), 0) == "[" + id + rest
    ensures Contains("[" + id + rest, Mark(id))
    ensures StripAll("[" + id + rest, Mark(id), 0) != "[" + id + rest
  {
    hide StripAll, At, ScanElement, Contains, Mark;
    var front, m := "[" + id, Mark(id);
    var e := m + "]";
    var s := front + e + rest;
    var (i, end) := (|front|, |front| + |e|);
    assert At(s, i, e) by { AtParts(front, e, rest); }
    Around(s, front, e, rest);
    BracketBehind(s, i, e, m);
    MarkOpens(s, id, rest);
    NoMarkBefore(s, id);
    NoBracketNoMark(s, end, id, rest);
    StripOne(s, m, i, end);
    MarkAhead(id, rest);
    assert m != "" by { MarkIsMarker(id); }
    StripFixpoint(front + rest, m);
  }

  lemma MarkOpens(s: string, id: string, rest: string)
    requires s == "[" + id + (Mark(id) + "]") + rest
    ensures "[" + id + "[" <= s
  {
  }

  lemma BracketBehind(s: string, i: nat, e: string, m: string)
    requires At(s, i, e) && e == m + "]"
    ensures At(s, i, m) && i + |m| <= |s| && ScanElement(s, i + |m|) == Some(i + |e|)
  {
    hide ScanElement;
    AtConcat(s, i, m, "]");
    CharAt(s, i + |m|, ']');
    ScanBracket(s, i + |m|);
  }

  lemma ScanBracket(s: string, i: nat)
    requires i < |s| && s[i] == ']'
    ensures ScanElement(s, i) == Some(i + 1)
  {
  }

  /** A text with one marked element is stripped of that element. */
  lemma StripOne(s: string, mark: string, i: nat, end: nat)
    requires At(s, i, mark) && i < |s| && i + |mark| <= |s| && ScanElement(s, i + |mark|) == Some(end)
    requires (forall k :: 0 <= k < i ==> !At(s, k, mark)) && forall k :: end <= k < |s| ==> !At(s, k, mark)
    ensures StripAll(s, mark, 0) == s[..i] + s[end..]
  {
    hide StripAll, At, ScanElement;
    StripCopies(s, mark, 0, i);
    StripCopies(s, mark, end, |s|);
    StripOpened(s, mark, i, end);
    assert s[0..i] == s[..i] && s[end..|s|] == s[end..];
    assert s[end..] + "" == s[end..];
  }

  lemma StripOpened(s: string, mark: string, i: nat, end: nat)
    requires At(s, i, mark) && i < |s| && i + |mark| <= |s| && ScanElement(s, i + |mark|) == Some(end)
    ensures StripAll(s, mark, i) == StripAll(s, mark, end) && StripAll(s, mark, |s|) == ""
  {
  }

  lemma MarkAhead(id: string, rest: string)
    requires rest != "" && rest[0] == ' '
    ensures Contains("[" + id + rest, Mark(id))
  {
    var s := "[" + id + rest;
    assert At(s, 0, Mark(id));
  }

  lemma NoBracketNoMark(s: string, i: nat, id: string, rest: string)
    requires i <= |s| && s[i..] == rest && '[' !in rest
    ensures forall k :: i <= k < |s| ==> !At(s, k, Mark(id))
  {
    assert Mark(id)[0] == '[';
    forall k | i <= k < |s| ensures s[k] != '[' {
      assert s[k] == rest[k - i] && s[k] in rest;
    }
    forall k | i <= k < |s| ensures !At(s, k, Mark(id)) {
      assert s[k + 0] != Mark(id)[0];
    }
  }

  lemma NoMarkBefore(s: string, id: string)
    requires '[' !in id && "[" + id + "[" <= s
    ensures forall k :: 0 <= k < 1 + |id| ==> !At(s, k, Mark(id))
  {
    var front, m := "[" + id + "[", Mark(id);
    assert s[1 + |id|] == front[1 + |id|] == '[';
    assert m[1 + |id|] == ' ' && m[0] == '[';
    assert s[0 + (1 + |id|)] != m[1 + |id|];
    forall k | 0 < k < 1 + |id| ensures !At(s, k, m) {
      assert s[k] == front[k] == id[k - 1];
      assert s[k] in id;
      assert s[k + 0] != m[0];
    }
  }

  /** A section in which the mark for `id` stands only at the start of elements with that identifier. */
  ghost predicate IsSection(es: seq<Element>, id: string) {
    && IsName(id) && '[' !in id
    && forall e :: e in es ==> IsElement(e) && (IsTarget(e, id) || !Contains(RenderElement(e), Mark(id)))
  }

  lemma TargetAt(s: string, i: nat, e: Element)
    requires IsElement(e) && e.params != [] && At(s, i, RenderElement(e))
    ensures At(s, i, Mark(e.id))
    ensures ScanElement(s, i + |Mark(e.id)|) == Some(i + |RenderElement(e)|)
  {
    hide At, ScanElement, IsParam, RenderBody, Mark, IsName;
    var m, body := Mark(e.id), RenderBody(e.params);
    ElementPieces(s, i, m, body);
    ScanRendered(s, i + |m|, e.params);
  }

  lemma ElementPieces(s: string, i: nat, m: string, body: string)
    requires At(s, i, m + body + "]")
    ensures At(s, i, m) && At(s, i + |m|, body)
    ensures var j := i + |m| + |body|; j < |s| && s[j] == ']'
  {
    hide At;
    AtConcat(s, i, m + body, "]");
    AtConcat(s, i, m, body);
    assert |m + body| == |m| + |body|;
    CharAt(s, i + |m + body|, ']');
  }

  lemma CharAt(s: string, i: nat, c: char)
    requires At(s, i, [c])
    ensures i < |s| && s[i] == c
  {
    assert [c][0] == c;
  }

  /** An element is copied whole when the mark does not occur in it. */
  lemma KeptAt(s: string, i: nat, e: Element, mark: string)
    requires IsMarker(mark) && At(s, i, RenderElement(e)) && !Contains(RenderElement(e), mark)
    ensures StripAll(s, mark, i) == RenderElement(e) + StripAll(s, mark, i + |RenderElement(e)|)
  {
    var t := RenderElement(e);
    var j := i + |t|;
    forall k | i <= k < j ensures !At(s, k, mark) {
      if At(s, k, mark) {
        NotInside(s, i, t, mark, k);
      }
    }
    StripCopies(s, mark, i, j);
    AtSlice(s, i, t);
  }

  lemma NotInside(s: string, i: nat, t: string, mark: string, k: nat)
    requires At(s, i, t) && At(s, k, mark) && i <= k < i + |t| && t[|t| - 1] == ']'
    ensures Contains(t, mark) || ']' in mark
  {
    if k + |mark| <= i + |t| {
      forall n | 0 <= n < |mark| ensures t[k - i + n] == mark[n] {
        assert s[k + n] == mark[n];
        assert s[i + (k - i + n)] == t[k - i + n];
      }
      assert At(t, k - i, mark);
    } else {
      var n := i + |t| - 1 - k;
      assert s[k + n] == mark[n];
      assert s[i + (|t| - 1)] == t[|t| - 1];
    }
  }

  lemma RenderAllAt(s: string, i: nat, es: seq<Element>)
    requires es != [] && At(s, i, RenderAll(es))
    ensures At(s, i, RenderElement(es[0])) && At(s, i + |RenderElement(es[0])|, RenderAll(es[1..]))
    ensures |RenderAll(es)| == |RenderElement(es[0])| + |RenderAll(es[1..])|
  {
    hide At, RenderElement;
    AtConcat(s, i, RenderElement(es[0]), RenderAll(es[1..]));
  }

  lemma {:induction false} StripSection(s: string, i: nat, es: seq<Element>, id: string)
    requires IsSection(es, id) && At(s, i, RenderAll(es)) && i + |RenderAll(es)| == |s|
    ensures StripAll(s, Mark(id), i) == RenderAll(Others(es, id))
    decreases |es|
  {
    hide At, RenderElement, IsElement, ScanElement, Mark, Contains, IsMarker;
    if es != [] {
      var e, rest := es[0], es[1..];
      RenderAllAt(s, i, es);
      MarkIsMarker(id);
      StripSection(s, i + |RenderElement(e)|, rest, id);
      if IsTarget(e, id) {
        StripTarget(s, i, e);
      } else {
        KeptAt(s, i, e, Mark(id));
        assert Others(es, id) == [e] + Others(rest, id);
        assert Others(es, id)[1..] == Others(rest, id);
      }
    }
  }

  lemma StripTarget(s: string, i: nat, e: Element)
    requires IsElement(e) && e.params != [] && At(s, i, RenderElement(e))
    ensures StripAll(s, Mark(e.id), i) == StripAll(s, Mark(e.id), i + |RenderElement(e)|)
  {
    hide RenderElement, ScanElement, Mark, IsElement;
    TargetAt(s, i, e);
  }

  /** The stripper is the element filter: the other elements survive whole and in order. */
  lemma StripIsFilter(es: seq<Element>, id: string)
    requires IsSection(es, id)
    ensures StripAll(RenderAll(es), Mark(id), 0) == RenderAll(Others(es, id))
    ensures IsSection(Others(es, id), id)
  {
    hide RenderElement, IsElement, Contains;
    var s := RenderAll(es);
    assert At(s, 0, s);
    StripSection(s, 0, es, id);
  }

  lemma {:induction false} OthersTwice(es: seq<Element>, id: string)
    ensures Others(Others(es, id), id) == Others(es, id)
  {
    if es != [] {
      OthersTwice(es[1..], id);
      if !IsTarget(es[0], id) {
        assert Others(es, id)[1..] == Others(es[1..], id);
      }
    }
  }

  /** On such sections a second strip changes nothing. */
  lemma StripIdempotent(es: seq<Element>, id: string)
    requires IsSection(es, id)
    ensures var once := StripAll(RenderAll(es), Mark(id), 0);
            StripAll(once, Mark(id), 0) == once && !Contains(once, Mark(id))
  {
    hide RenderElement, IsElement, Contains, At, StripAll;
    StripIsFilter(es, id);
    StripIsFilter(Others(es, id), id);
    OthersTwice(es, id);
    StripFixpoint(RenderAll(Others(es, id)), Mark(id));
    assert Mark(id) != "";
  }

  /**
   * The two passes made before signing leave, in order, the elements that neither of them targets: an
   * element without parameters stays even under their own identifiers.
   */
  lemma StripBoth(es: seq<Element>, id: string, id': string)
    requires IsSection(es, id) && IsSection(es, id')
    ensures var once := StripAll(RenderAll(es), Mark(id), 0);
            StripAll(once, Mark(id'), 0) == RenderAll(Others(Others(es, id), id'))
    ensures forall e :: e in Others(Others(es, id), id') <==> e in es && !IsTarget(e, id) && !IsTarget(e, id')
  {
    hide RenderElement, IsElement, Contains, At, StripAll;
    StripIsFilter(es, id);
    StripIsFilter(Others(es, id), id');
  }

  /** No element with either identifier survives exactly when none of theirs came without parameters. */
  lemma NoneSurvives(es: seq<Element>, id: string, id': string)
    ensures (forall e :: e in Others(Others(es, id), id') ==> e.id != id && e.id != id') <==>
              forall e :: e in es && e.params == [] ==> e.id != id && e.id != id'
  {
    var kept := Others(Others(es, id), id');
    forall e | e in es && e.params == [] ensures e in kept {
      assert !IsTarget(e, id) && !IsTarget(e, id');
    }
  }

  /** A text whose only bracket opens something else is left alone. */
  lemma OtherElementStays(s: string, mark: string)
    requires s != "" && '[' !in s[1..] && mark != "" && mark[0] == '[' && !At(s, 0, mark)
    ensures !Contains(s, mark) && StripAll(s, mark, 0) == s
  {
    hide StripAll;
    forall k: nat ensures !At(s, k, mark) {
      if 0 < k < |s| {
        assert s[k] == s[1..][k - 1] && s[k] in s[1..];
        assert s[k + 0] != mark[0];
      }
    }
    StripFixpoint(s, mark);
  }

  // ---------- The loops ----------

  /** The scanner over a buffer whose unread part still holds the original text `s`. */
  method ScanBuffer(src: array<char>, p0: nat, end: nat, ghost s: string) returns (q: nat)
    requires p0 <= end <= src.Length && |s| == end
    requires forall k :: p0 <= k < end ==> src[k] == s[k]
    ensures q == match ScanElement(s, p0) case Some(e) => e case None => end
  {
    var p := p0;
    while p < end
      invariant p0 <= p <= end
      invariant ScanElement(s, p) == ScanElement(s, p0)
    {
      if src[p] == '"' {
        p := p + 1;
        while p < end && src[p] != '"'
          invariant p0 <= p <= end
          invariant ScanValue(s, p) == ScanElement(s, p0)
          decreases end - p
        {
          if src[p] == '\\' && p + 1 < end {
            p := p + 1;
          }
          p := p + 1;
        }
      }
      if p < end && src[p] == ']' {
        return p + 1;
      }
      if p < end {
        p := p + 1;
      }
    }
    return end;
  }

  /** Compares the buffer at `i` with the mark. */
  method MatchAt(src: array<char>, n: nat, i: nat, mark: string, ghost s: string) returns (yes: bool)
    requires i <= n <= src.Length && |s| == n
    requires forall k :: i <= k < n ==> src[k] == s[k]
    ensures yes <==> At(s, i, mark)
  {
    if i + |mark| > n {
      return false;
    }
    for k := 0 to |mark|
      invariant forall m :: 0 <= m < k ==> s[i + m] == mark[m]
    {
      if src[i + k] != mark[k] {
        assert s[i + k] != mark[k];
        return false;
      }
    }
    return true;
  }

  /**
   * Strips every element opened by `mark` from `src[..n]` into `out`, which may be the same array.
   * The result is that of the two-buffer strip of the original text in either case: the write
   * index never passes the read index, so the unread text is untouched.
   */
  method StripAllSd(src: array<char>, n: nat, mark: string, out: array<char>, cap: nat)
    returns (len: int, removed: bool)
    requires n <= src.Length && cap <= out.Length && mark != ""
    modifies out
    ensures len == -1 <==> |StripAll(old(src[..n]), mark, 0)| >= cap
    ensures len != -1 ==>
              && len == |StripAll(old(src[..n]), mark, 0)| < cap
              && out[..len] == StripAll(old(src[..n]), mark, 0) && out[len] == '\0'
              && (removed <==> Contains(old(src[..n]), mark))
    ensures cap > n ==> len != -1
  {
    hide StripAll, ScanElement, At;
    ghost var s := src[..n];
    ghost var r := StripAll(s, mark, 0);
    var i, j := 0, 0;
    removed := false;
    while i < n
      invariant 0 <= j <= i <= n
      invariant forall k :: i <= k < n ==> src[k] == s[k]
      invariant j < cap || j == 0
      invariant j <= cap && out[..j] + StripAll(s, mark, i) == r
      invariant removed ==> Contains(s, mark)
      invariant !removed ==> forall k :: 0 <= k < i ==> !At(s, k, mark)
      decreases n - i
    {
      var hit := MatchAt(src, n, i, mark, s);
      StripStep(s, mark, i);
      if hit {
        i := ScanBuffer(src, i + |mark|, n, s);
        assert Contains(s, mark);
        removed := true;
      } else {
        if j + 1 >= cap {
          return -1, removed;
        }
        out[j] := src[i];
        assert out[..j + 1] == out[..j] + [s[i]];
        j := j + 1;
        i := i + 1;
      }
    }
    StripEnd(s, mark);
    if j >= cap {
      return -1, removed;
    }
    out[j] := '\0';
    assert out[..j] == r;
    return j, removed;
  }

  lemma StripEnd(s: string, mark: string)
    ensures StripAll(s, mark, |s|) == ""
    ensures mark != "" ==> forall k: nat :: |s| <= k ==> !At(s, k, mark)
  {
  }

  lemma StripStep(s: string, mark: string, i: nat)
    requires i < |s|
    ensures At(s, i, mark) ==>
              i + |mark| <= |s| &&
              StripAll(s, mark, i) ==
              match ScanElement(s, i + |mark|) case Some(e) => StripAll(s, mark, e) case None => StripAll(s, mark, |s|)
    ensures !At(s, i, mark) ==> StripAll(s, mark, i) == [s[i]] + StripAll(s, mark, i + 1)
    ensures StripAll(s, mark, |s|) == ""
  {
  }
}

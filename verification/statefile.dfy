/** The state file: the text a stopping worker leaves behind and what a starting one reads from it. */
module StateFile {
  import opened Wrappers
  import opened Octets
  import opened SdText
  import opened Crypto

  const MAGIC: string := "MMHASHCHAINSIGS_STATE_V1"
  const LINE_BUF: nat := 255

  /** A loaded state; the hash is kept in a buffer of the largest hash length, padded with zeros. */
  datatype Saved = Saved(alg: HashAlg, hash: octets, next: nat, sigFrom: nat, fp: octets)

  const BLANK: Saved := Saved(Sha256, Zeros(HASH_MAX_LEN), 0, 0, Zeros(HASH_LEN))

  // ---------- Saving ----------

  datatype Snapshot = Snapshot(alg: HashAlg, current: octets, next: nat, sigFrom: nat, fp: octets)

  predicate IsSnapshot(s: Snapshot) {
    |s.current| == HashLen(s.alg) && s.next < TWO_64 && s.sigFrom < TWO_64 && |s.fp| == HASH_LEN
  }

  function FieldLine(s: Snapshot, k: nat): string
    requires k < 5
  {
    if k == 0 then "hashalgo=" + HashName(s.alg) + "\n"
    else if k == 1 then "chain_hash=" + HexEncode(s.current) + "\n"
    else if k == 2 then "seq=" + Decimal(s.next) + "\n"
    else if k == 3 then "sig_seq_from=" + Decimal(s.sigFrom) + "\n"
    else "pubkey_fp=" + HexEncode(s.fp) + "\n"
  }

  function Concat(lines: seq<string>): string {
    if lines == [] then "" else lines[0] + Concat(lines[1..])
  }

  function SaveText(s: Snapshot): string {
    Concat([MAGIC + "\n", FieldLine(s, 0), FieldLine(s, 1), FieldLine(s, 2), FieldLine(s, 3), FieldLine(s, 4)])
  }

  /** What loading should give back. */
  function AsSaved(s: Snapshot): Saved
    requires |s.current| <= HASH_MAX_LEN
  {
    Saved(s.alg, s.current + Zeros(HASH_MAX_LEN - |s.current|), s.next, s.sigFrom, s.fp)
  }

  // ---------- Loading ----------

  /** End of the next line: just past a newline, or where the line buffer is full. */
  function LineEnd(text: string, i: nat, room: nat): (j: nat)
    requires i <= |text|
    ensures i <= j <= |text| && (i < |text| && room > 0 ==> i < j)
    decreases room
  {
    if i == |text| || room == 0 then i
    else if text[i] == '\n' then i + 1
    else LineEnd(text, i + 1, room - 1)
  }

  function SplitLines(text: string, i: nat): seq<string>
    requires i <= |text|
    decreases |text| - i
  {
    if i == |text| then []
    else
      var j := LineEnd(text, i, LINE_BUF);
      [text[i..j]] + SplitLines(text, j)
  }

  /** What ends a word: white space, or the terminator that ends the line for every string function. */
  predicate EndsWord(c: char) {
    IsSpace(c) || c == '\0'
  }

  function WordEnd(s: string, i: nat, max: nat): (j: nat)
    requires i <= |s|
    ensures i <= j <= |s|
    decreases max
  {
    if i == |s| || max == 0 || EndsWord(s[i]) then i else WordEnd(s, i + 1, max - 1)
  }

  /** `key` followed by a word of at most `max` characters, leading white space skipped. */
  function ScanWord(line: string, key: string, max: nat): Option<string> {
    if !At(line, 0, key) then None
    else
      var rest := line[|key|..];
      var i := SpaceRun(rest);
      var j := WordEnd(rest, i, max);
      if i == j then None else Some(rest[i..j])
  }

  function ScanNumber(line: string, key: string): Option<nat> {
    if !At(line, 0, key) then None
    else
      var (n, used) := Strtoull(line[|key|..]);
      if used == 0 then None else Some(n)
  }

  datatype Loading =
    | Rejected
    | Loading(saved: Saved, gotHash: bool, gotNext: bool, gotFrom: bool, gotFp: bool)

  /** A hash that fails to decode leaves the octets written before the bad pair, and no flag. */
  function LoadHash(st: Loading, hex: string): Loading
    requires st.Loading?
  {
    if AlgFromHexLen(|hex|).None? then st
    else
      st.(saved := st.saved.(hash := Overwrite(st.saved.hash, HexWritten(hex))),
          gotHash := st.gotHash || HexDecode(hex).Some?)
  }

  function LoadFp(st: Loading, hex: string): Loading
    requires st.Loading?
  {
    st.(saved := st.saved.(fp := Overwrite(st.saved.fp, HexWritten(hex))),
        gotFp := st.gotFp || HexDecode(hex).Some?)
  }

  /** The fields have room for the longest hash and for a fingerprint. */
  predicate IsSized(st: Saved) {
    |st.hash| == HASH_MAX_LEN && |st.fp| == HASH_LEN
  }

  function Overwrite(buf: octets, h: octets): (r: octets)
    ensures |h| <= |buf| ==> |r| == |buf|
  {
    if |h| <= |buf| then h + buf[|h|..] else h
  }

  function LoadLine(st: Loading, line: string): Loading {
    if st.Rejected? then st else
      var algo := ScanWord(line, "hashalgo=", 63);
      var hash := ScanWord(line, "chain_hash=", 128);
      var next := ScanNumber(line, "seq=");
      var from := ScanNumber(line, "sig_seq_from=");
      var fp := ScanWord(line, "pubkey_fp=", 64);
      if algo.Some? then
        match HashFromName(algo.value)
        case None => Rejected
        case Some(a) => st.(saved := st.saved.(alg := a))
      else if hash.Some? then LoadHash(st, hash.value)
      else if next.Some? then st.(saved := st.saved.(next := next.value), gotNext := true)
      else if from.Some? then st.(saved := st.saved.(sigFrom := from.value), gotFrom := true)
      else if fp.Some? && |fp.value| == 2 * HASH_LEN then LoadFp(st, fp.value)
      else st
  }

  function LoadLines(st: Loading, lines: seq<string>): Loading
    decreases |lines|
  {
    if lines == [] then st else LoadLines(LoadLine(st, lines[0]), lines[1..])
  }

  predicate IsComplete(st: Loading) {
    st.Loading? && st.gotHash && st.gotNext && st.gotFrom && st.gotFp
  }

  const START: Loading := Loading(BLANK, false, false, false, false)

  function LoadText(text: string): Option<Saved> {
    var lines := SplitLines(text, 0);
    if lines == [] || !At(lines[0], 0, MAGIC) then None
    else
      var st := LoadLines(START, lines[1..]);
      if IsComplete(st) then Some(st.saved) else None
  }

  // ---------- What each field line does ----------

  /** Text without white space and terminators. */
  predicate IsWord(s: string) {
    s != "" && forall i :: 0 <= i < |s| ==> !EndsWord(s[i])
  }

  lemma {:induction false} WordEndIs(s: string, i: nat, j: nat, max: nat)
    requires i <= j < |s| && j - i <= max && EndsWord(s[j])
    requires forall k :: i <= k < j ==> !EndsWord(s[k])
    ensures WordEnd(s, i, max) == j
    decreases j - i
  {
    if i < j {
      WordEndIs(s, i + 1, j, max - 1);
    }
  }

  lemma KeyRest(line: string, key: string, rest: string)
    requires line == key + rest
    ensures At(line, 0, key) && line[|key|..] == rest
  {
    AtSlice(line, 0, key);
  }

  lemma ScanWordIs(line: string, key: string, word: string, max: nat)
    requires IsWord(word) && |word| <= max && line == key + (word + "\n")
    ensures ScanWord(line, key, max) == Some(word)
  {
    var rest := word + "\n";
    KeyRest(line, key, rest);
    assert SpaceRun(rest) == 0 by { assert rest[0] == word[0]; }
    WordEndIs(rest, 0, |word|, max);
    assert rest[0..|word|] == word;
  }

  lemma ScanNumberIs(line: string, key: string, n: nat)
    requires n < TWO_64 && line == key + (Decimal(n) + "\n")
    ensures ScanNumber(line, key) == Some(n)
  {
    hide Strtoull, Decimal;
    KeyRest(line, key, Decimal(n) + "\n");
    DecimalRoundTrip(n, "\n");
  }

  lemma DigitsAreWord(n: nat)
    ensures IsWord(Decimal(n))
  {
    DecimalDigits(n);
  }

  lemma {:induction false} HexIsWord(b: octets)
    requires b != []
    ensures IsWord(HexEncode(b))
  {
    var front, last := b[..|b| - 1], b[|b| - 1] as int;
    assert !EndsWord(HexDigit(last / 16)) && !EndsWord(HexDigit(last % 16));
    if front != [] {
      HexIsWord(front);
    }
  }

  /** A line that starts with one key does not start with another. */
  lemma OtherKey(line: string, key: string, rest: string, other: string, k: nat)
    requires line == key + rest && k < |key| && k < |other| && key[k] != other[k]
    ensures !At(line, 0, other)
  {
    if At(line, 0, other) {
      AtChar(line, other, k);
    }
  }

  lemma AtChar(line: string, t: string, k: nat)
    requires At(line, 0, t) && k < |t|
    ensures line[k] == t[k]
  {
    assert line[0 + k] == t[k];
  }

  function Field(s: Snapshot, k: nat, st: Loading): Loading
    requires k < 5 && st.Loading?
  {
    if k == 0 then st.(saved := st.saved.(alg := s.alg))
    else if k == 1 then st.(saved := st.saved.(hash := Overwrite(st.saved.hash, s.current)), gotHash := true)
    else if k == 2 then st.(saved := st.saved.(next := s.next), gotNext := true)
    else if k == 3 then st.(saved := st.saved.(sigFrom := s.sigFrom), gotFrom := true)
    else st.(saved := st.saved.(fp := Overwrite(st.saved.fp, s.fp)), gotFp := true)
  }

  lemma AlgoLine(s: Snapshot, st: Loading)
    requires IsSnapshot(s) && st.Loading?
    ensures LoadLine(st, FieldLine(s, 0)) == Field(s, 0, st)
  {
    hide ScanWord, ScanNumber, HashFromName;
    AlgRoundTrip(s.alg);
    assert FieldLine(s, 0) == "hashalgo=" + (HashName(s.alg) + "\n");
    assert IsWord(HashName(s.alg));
    ScanWordIs(FieldLine(s, 0), "hashalgo=", HashName(s.alg), 63);
  }

  lemma HashLine(s: Snapshot, st: Loading)
    requires IsSnapshot(s) && st.Loading?
    ensures LoadLine(st, FieldLine(s, 1)) == Field(s, 1, st)
  {
    hide ScanNumber, HexWritten, HexEncode, AlgFromHexLen, Overwrite;
    var line, hex := FieldLine(s, 1), HexEncode(s.current);
    assert line == "chain_hash=" + (hex + "\n");
    OtherKey(line, "chain_hash=", hex + "\n", "hashalgo=", 0);
    HexIsWord(s.current);
    ScanWordIs(line, "chain_hash=", hex, 128);
    HexRoundTrip(s.current);
    AlgRoundTrip(s.alg);
  }

  lemma NextLine(s: Snapshot, st: Loading)
    requires IsSnapshot(s) && st.Loading?
    ensures LoadLine(st, FieldLine(s, 2)) == Field(s, 2, st)
  {
    hide Decimal, Strtoull;
    var line, n := FieldLine(s, 2), Decimal(s.next);
    assert line == "seq=" + (n + "\n");
    OtherKey(line, "seq=", n + "\n", "hashalgo=", 0);
    OtherKey(line, "seq=", n + "\n", "chain_hash=", 0);
    ScanNumberIs(line, "seq=", s.next);
  }

  lemma FromLine(s: Snapshot, st: Loading)
    requires IsSnapshot(s) && st.Loading?
    ensures LoadLine(st, FieldLine(s, 3)) == Field(s, 3, st)
    ensures ScanNumber(FieldLine(s, 3), "seq=") == None
  {
    hide Decimal, Strtoull;
    var line, n := FieldLine(s, 3), Decimal(s.sigFrom);
    assert line == "sig_seq_from=" + (n + "\n");
    OtherKey(line, "sig_seq_from=", n + "\n", "hashalgo=", 0);
    OtherKey(line, "sig_seq_from=", n + "\n", "chain_hash=", 0);
    OtherKey(line, "sig_seq_from=", n + "\n", "seq=", 1);
    ScanNumberIs(line, "sig_seq_from=", s.sigFrom);
  }

  lemma FpLine(s: Snapshot, st: Loading)
    requires IsSnapshot(s) && st.Loading?
    ensures LoadLine(st, FieldLine(s, 4)) == Field(s, 4, st)
  {
    hide HexWritten, HexEncode, Strtoull, Overwrite;
    var line, hex := FieldLine(s, 4), HexEncode(s.fp);
    assert line == "pubkey_fp=" + (hex + "\n");
    OtherKey(line, "pubkey_fp=", hex + "\n", "hashalgo=", 0);
    OtherKey(line, "pubkey_fp=", hex + "\n", "chain_hash=", 0);
    OtherKey(line, "pubkey_fp=", hex + "\n", "seq=", 0);
    OtherKey(line, "pubkey_fp=", hex + "\n", "sig_seq_from=", 0);
    HexIsWord(s.fp);
    ScanWordIs(line, "pubkey_fp=", hex, 64);
    HexRoundTrip(s.fp);
  }

  /** Each field line sets its own field and flag, and nothing else. */
  lemma FieldLineSets(s: Snapshot, k: nat, st: Loading)
    requires IsSnapshot(s) && k < 5 && st.Loading?
    ensures LoadLine(st, FieldLine(s, k)) == Field(s, k, st)
  {
    hide LoadLine, Field, FieldLine;
    if k == 0 { AlgoLine(s, st); }
    else if k == 1 { HashLine(s, st); }
    else if k == 2 { NextLine(s, st); }
    else if k == 3 { FromLine(s, st); }
    else { FpLine(s, st); }
  }

  // ---------- Any order of the field lines ----------

  function FieldLines(s: Snapshot, order: seq<nat>): (lines: seq<string>)
    requires forall i :: 0 <= i < |order| ==> order[i] < 5
    ensures |lines| == |order|
  {
    seq(|order|, i requires 0 <= i < |order| => FieldLine(s, order[i]))
  }

  /** The state after field lines in any order, repeats allowed. */
  function Collected(s: Snapshot, order: seq<nat>): (st: Loading)
    requires |s.current| <= HASH_MAX_LEN
    ensures st.Loading?
  {
    Loading(Saved(if 0 in order then s.alg else Sha256,
                  if 1 in order then AsSaved(s).hash else Zeros(HASH_MAX_LEN),
                  if 2 in order then s.next else 0,
                  if 3 in order then s.sigFrom else 0,
                  if 4 in order then s.fp else Zeros(HASH_LEN)),
            1 in order, 2 in order, 3 in order, 4 in order)
  }

  lemma OverwriteTwice(s: Snapshot)
    requires |s.current| <= HASH_MAX_LEN
    ensures Overwrite(Zeros(HASH_MAX_LEN), s.current) == AsSaved(s).hash
    ensures Overwrite(AsSaved(s).hash, s.current) == AsSaved(s).hash
  {
    var n := HASH_MAX_LEN - |s.current|;
    assert Zeros(HASH_MAX_LEN)[|s.current|..] == Zeros(n);
    assert AsSaved(s).hash[|s.current|..] == Zeros(n);
  }

  lemma ZerosLength(k: nat)
    ensures |Zeros(k)| == k
  {
  }

  lemma OverwriteAll(buf: octets, h: octets)
    requires |h| == |buf|
    ensures Overwrite(buf, h) == h
  {
  }

  lemma CollectedStep(s: Snapshot, order: seq<nat>, k: nat)
    requires |s.current| <= HASH_MAX_LEN && |s.fp| == HASH_LEN && k < 5
    ensures Field(s, k, Collected(s, order)) == Collected(s, order + [k])
  {
    hide Overwrite, AsSaved, Zeros;
    OverwriteTwice(s);
    ZerosLength(HASH_LEN);
    OverwriteAll(Collected(s, order).saved.fp, s.fp);
    assert forall m: nat :: m in order + [k] <==> m in order || m == k;
  }

  lemma {:induction false} LoadCollected(s: Snapshot, done: seq<nat>, order: seq<nat>)
    requires IsSnapshot(s) && forall i :: 0 <= i < |order| ==> order[i] < 5
    ensures LoadLines(Collected(s, done), FieldLines(s, order)) == Collected(s, done + order)
    decreases |order|
  {
    hide LoadLine, FieldLine, Collected;
    if order == [] {
      assert done + order == done;
    } else {
      var k, rest := order[0], order[1..];
      FieldLineSets(s, k, Collected(s, done));
      CollectedStep(s, done, k);
      LoadCollected(s, done + [k], rest);
      assert done + order == (done + [k]) + rest;
      assert FieldLines(s, order)[1..] == FieldLines(s, rest);
    }
  }

  lemma EmptyCollected(s: Snapshot)
    requires |s.current| <= HASH_MAX_LEN
    ensures Collected(s, []) == START
  {
  }

  // ---------- Splitting ----------

  /** One newline, at the end, within the line buffer. */
  predicate IsLine(s: string) {
    0 < |s| <= LINE_BUF && s[|s| - 1] == '\n' && forall i :: 0 <= i < |s| - 1 ==> s[i] != '\n'
  }

  lemma {:induction false} LineEndIs(text: string, i: nat, j: nat, room: nat)
    requires i < j <= |text| && j - i <= room && text[j - 1] == '\n'
    requires forall k :: i <= k < j - 1 ==> text[k] != '\n'
    ensures LineEnd(text, i, room) == j
    decreases j - i
  {
    if i < j - 1 {
      LineEndIs(text, i + 1, j, room - 1);
    }
  }

  lemma {:induction false} SplitConcat(text: string, i: nat, lines: seq<string>)
    requires forall k :: 0 <= k < |lines| ==> IsLine(lines[k])
    requires i <= |text| && text[i..] == Concat(lines)
    ensures SplitLines(text, i) == lines
    decreases |lines|
  {
    if lines != [] {
      var line := lines[0];
      var j := i + |line|;
      var rest := text[i..];
      assert forall k :: 0 <= k < |line| ==> rest[k] == line[k] && rest[k] == text[i + k];
      assert text[j - 1] == line[|line| - 1];
      forall k | i <= k < j - 1 ensures text[k] != '\n' {
        assert text[i + (k - i)] == line[k - i];
      }
      LineEndIs(text, i, j, LINE_BUF);
      assert text[i..j] == rest[..|line|] == line;
      assert text[j..] == rest[|line|..] == Concat(lines[1..]);
      SplitConcat(text, j, lines[1..]);
    }
  }

  lemma FieldLineIsLine(s: Snapshot, k: nat)
    requires IsSnapshot(s) && k < 5
    ensures IsLine(FieldLine(s, k))
  {
    hide Decimal, HexEncode;
    HexIsWord(s.current);
    HexIsWord(s.fp);
    DigitsAreWord(s.next);
    DigitsAreWord(s.sigFrom);
    DecimalFits(s.next);
    DecimalFits(s.sigFrom);
    if k == 0 { KeyedLine("hashalgo=", HashName(s.alg)); }
    else if k == 1 { KeyedLine("chain_hash=", HexEncode(s.current)); }
    else if k == 2 { KeyedLine("seq=", Decimal(s.next)); }
    else if k == 3 { KeyedLine("sig_seq_from=", Decimal(s.sigFrom)); }
    else { KeyedLine("pubkey_fp=", HexEncode(s.fp)); }
  }

  lemma KeyedLine(key: string, word: string)
    requires IsWord(word) && IsWord(key) && |key| + |word| < LINE_BUF
    ensures IsLine(key + word + "\n")
  {
    var s := key + word + "\n";
    forall i | 0 <= i < |s| - 1 ensures s[i] != '\n' {
      assert !EndsWord(if i < |key| then key[i] else word[i - |key|]);
    }
  }

  /**
   * Loading does not depend on the order of the field lines, and needs four of them: a text made of the
   * magic line and field lines in any order, repeats allowed, loads exactly when the hash, both numbers
   * and the fingerprint are among them; the algorithm is SHA-256 when its line is missing.
   */
  lemma LoadAnyOrder(s: Snapshot, order: seq<nat>)
    requires IsSnapshot(s) && (forall i :: 0 <= i < |order| ==> order[i] < 5)
    ensures LoadText(Concat([MAGIC + "\n"] + FieldLines(s, order))) ==
            if 1 in order && 2 in order && 3 in order && 4 in order
            then Some(AsSaved(s).(alg := if 0 in order then s.alg else Sha256))
            else None
  {
    hide LoadLine, FieldLine, SplitLines, Concat, IsLine, At, AsSaved;
    var fields := FieldLines(s, order);
    var lines := [MAGIC + "\n"] + fields;
    var text := Concat(lines);
    forall k | 0 <= k < |lines| ensures IsLine(lines[k]) {
      if k == 0 {
        MagicLine();
      } else {
        FieldLineIsLine(s, order[k - 1]);
      }
    }
    assert text[0..] == text;
    SplitConcat(text, 0, lines);
    EmptyCollected(s);
    LoadCollected(s, [], order);
    assert [] + order == order;
    MagicLine();
    assert lines[1..] == fields;
    if 1 in order && 2 in order && 3 in order && 4 in order {
      AllCollected(s, order);
    }
  }

  lemma AllCollected(s: Snapshot, order: seq<nat>)
    requires |s.current| <= HASH_MAX_LEN && 1 in order && 2 in order && 3 in order && 4 in order
    ensures Collected(s, order).saved == AsSaved(s).(alg := if 0 in order then s.alg else Sha256)
  {
  }

  lemma MagicLine()
    ensures IsLine(MAGIC + "\n") && At(MAGIC + "\n", 0, MAGIC)
  {
  }

  /** The state file round trip. */
  lemma StateRoundTrip(s: Snapshot)
    requires IsSnapshot(s)
    ensures LoadText(SaveText(s)) == Some(AsSaved(s))
    ensures AsSaved(s).hash[..HashLen(s.alg)] == s.current
  {
    hide LoadText, FieldLine, Concat;
    var order := [0, 1, 2, 3, 4];
    assert order[0] == 0 && order[1] == 1 && order[2] == 2 && order[3] == 3 && order[4] == 4;
    LoadAnyOrder(s, order);
    assert [MAGIC + "\n"] + FieldLines(s, [0, 1, 2, 3, 4]) ==
           [MAGIC + "\n", FieldLine(s, 0), FieldLine(s, 1), FieldLine(s, 2), FieldLine(s, 3), FieldLine(s, 4)];
  }

  // ---------- Arbitrary state files ----------

  /** The line names an algorithm that is not known. */
  predicate NamesUnknown(line: string) {
    var algo := ScanWord(line, "hashalgo=", 63);
    algo.Some? && HashFromName(algo.value).None?
  }

  predicate GivesHash(line: string) {
    var hash := ScanWord(line, "chain_hash=", 128);
    hash.Some? && AlgFromHexLen(|hash.value|).Some? && HexDecode(hash.value).Some?
  }

  predicate GivesNumber(line: string, key: string) {
    ScanNumber(line, key).Some?
  }

  predicate GivesFp(line: string) {
    var fp := ScanWord(line, "pubkey_fp=", 64);
    fp.Some? && |fp.value| == 2 * HASH_LEN && HexDecode(fp.value).Some?
  }

  /** The number on the last line that gives one for this key; zero when there is none. */
  function LastNumber(lines: seq<string>, key: string): nat {
    if lines == [] then 0
    else
      match ScanNumber(lines[|lines| - 1], key)
      case Some(n) => n
      case None => LastNumber(lines[..|lines| - 1], key)
  }

  /** The algorithm of the last line that names one; older files have none. */
  function LastAlg(lines: seq<string>): HashAlg {
    if lines == [] then Sha256
    else
      match ScanWord(lines[|lines| - 1], "hashalgo=", 63)
      case Some(name) => (match HashFromName(name) case Some(a) => a case None => LastAlg(lines[..|lines| - 1]))
      case None => LastAlg(lines[..|lines| - 1])
  }

  /** The hash field after the lines: each hash of a legal width is written over what is there. */
  function HashBuffer(lines: seq<string>): octets {
    if lines == [] then Zeros(HASH_MAX_LEN)
    else
      var before := HashBuffer(lines[..|lines| - 1]);
      match ScanWord(lines[|lines| - 1], "chain_hash=", 128)
      case Some(hex) => if AlgFromHexLen(|hex|).Some? then Overwrite(before, HexWritten(hex)) else before
      case None => before
  }

  function FpBuffer(lines: seq<string>): octets {
    if lines == [] then Zeros(HASH_LEN)
    else
      var before := FpBuffer(lines[..|lines| - 1]);
      match ScanWord(lines[|lines| - 1], "pubkey_fp=", 64)
      case Some(hex) => if |hex| == 2 * HASH_LEN then Overwrite(before, HexWritten(hex)) else before
      case None => before
  }

  /** The fields as the lines leave them. */
  function Fields(lines: seq<string>): Saved {
    Saved(LastAlg(lines), HashBuffer(lines), LastNumber(lines, "seq="), LastNumber(lines, "sig_seq_from="),
          FpBuffer(lines))
  }

  /** What has been collected from the lines when none named an unknown algorithm. */
  ghost predicate HasCollected(st: Loading, lines: seq<string>) {
    && st.Loading?
    && (st.gotHash <==> exists k :: 0 <= k < |lines| && GivesHash(lines[k]))
    && (st.gotNext <==> exists k :: 0 <= k < |lines| && GivesNumber(lines[k], "seq="))
    && (st.gotFrom <==> exists k :: 0 <= k < |lines| && GivesNumber(lines[k], "sig_seq_from="))
    && (st.gotFp <==> exists k :: 0 <= k < |lines| && GivesFp(lines[k]))
    && st.saved == Fields(lines)
  }

  predicate OtherKeysOff(line: string, key: string) {
    forall other :: other in ["hashalgo=", "chain_hash=", "seq=", "sig_seq_from=", "pubkey_fp="] && other != key ==>
      !At(line, 0, other)
  }

  /** At most one of the five keys starts a line. */
  lemma KeysExclude(line: string)
    ensures At(line, 0, "hashalgo=") ==> OtherKeysOff(line, "hashalgo=")
    ensures At(line, 0, "chain_hash=") ==> OtherKeysOff(line, "chain_hash=")
    ensures At(line, 0, "seq=") ==> OtherKeysOff(line, "seq=")
    ensures At(line, 0, "sig_seq_from=") ==> OtherKeysOff(line, "sig_seq_from=")
    ensures At(line, 0, "pubkey_fp=") ==> OtherKeysOff(line, "pubkey_fp=")
  {
    hide At;
    StartsWith(line, "hashalgo=");
    StartsWith(line, "chain_hash=");
    StartsWith(line, "seq=");
    StartsWith(line, "sig_seq_from=");
    StartsWith(line, "pubkey_fp=");
  }

  lemma StartsWith(line: string, key: string)
    requires |key| > 1
    ensures At(line, 0, key) ==> |line| > 1 && line[0] == key[0] && line[1] == key[1]
  {
    if At(line, 0, key) {
      AtChar(line, key, 0);
      AtChar(line, key, 1);
    }
  }

  /** The fields after one more line. */
  function FieldsAfter(st: Saved, line: string): Saved {
    var (algo, hash, fp) :=
      (ScanWord(line, "hashalgo=", 63), ScanWord(line, "chain_hash=", 128), ScanWord(line, "pubkey_fp=", 64));
    Saved(
      if algo.Some? && HashFromName(algo.value).Some? then HashFromName(algo.value).value else st.alg,
      if hash.Some? && AlgFromHexLen(|hash.value|).Some? then Overwrite(st.hash, HexWritten(hash.value)) else st.hash,
      match ScanNumber(line, "seq=") case Some(n) => n case None => st.next,
      match ScanNumber(line, "sig_seq_from=") case Some(n) => n case None => st.sigFrom,
      if fp.Some? && |fp.value| == 2 * HASH_LEN then Overwrite(st.fp, HexWritten(fp.value)) else st.fp)
  }

  lemma FieldsSnoc(lines: seq<string>, line: string)
    ensures Fields(lines + [line]) == FieldsAfter(Fields(lines), line)
  {
    hide ScanWord, ScanNumber, HashFromName, AlgFromHexLen, HexWritten, Overwrite;
    assert (lines + [line])[..|lines|] == lines && (lines + [line])[|lines|] == line;
  }

  /** What a single line adds. */
  ghost predicate LineAdds(st: Loading, line: string, next: Loading)
    requires st.Loading?
  {
    && next.Loading?
    && (next.gotHash <==> st.gotHash || GivesHash(line))
    && (next.gotNext <==> st.gotNext || GivesNumber(line, "seq="))
    && (next.gotFrom <==> st.gotFrom || GivesNumber(line, "sig_seq_from="))
    && (next.gotFp <==> st.gotFp || GivesFp(line))
    && next.saved == FieldsAfter(st.saved, line)
  }

  lemma NoKeyNoField(line: string, key: string, max: nat)
    requires !At(line, 0, key)
    ensures ScanWord(line, key, max) == None && ScanNumber(line, key) == None
  {
  }

  lemma OneLineAdds(st: Loading, line: string)
    requires st.Loading?
    ensures if NamesUnknown(line) then LoadLine(st, line) == Rejected else LineAdds(st, line, LoadLine(st, line))
  {
    hide At, ScanWord, ScanNumber, HexDecode, HexWritten, AlgFromHexLen, HashFromName, Overwrite;
    KeysExclude(line);
    if !At(line, 0, "hashalgo=") { NoKeyNoField(line, "hashalgo=", 63); }
    if !At(line, 0, "chain_hash=") { NoKeyNoField(line, "chain_hash=", 128); }
    if !At(line, 0, "seq=") { NoKeyNoField(line, "seq=", 0); }
    if !At(line, 0, "sig_seq_from=") { NoKeyNoField(line, "sig_seq_from=", 0); }
    if !At(line, 0, "pubkey_fp=") { NoKeyNoField(line, "pubkey_fp=", 64); }
  }

  lemma CollectsOne(st: Loading, lines: seq<string>, line: string)
    requires HasCollected(st, lines)
    ensures NamesUnknown(line) ==> LoadLine(st, line) == Rejected
    ensures !NamesUnknown(line) ==> HasCollected(LoadLine(st, line), lines + [line])
  {
    hide LoadLine, NamesUnknown, GivesHash, GivesNumber, GivesFp, ScanNumber, Fields, FieldsAfter;
    OneLineAdds(st, line);
    FieldsSnoc(lines, line);
    var all := lines + [line];
    assert all[|lines|] == line && all[..|lines|] == lines;
    assert forall k :: 0 <= k < |lines| ==> all[k] == lines[k];
  }

  lemma {:induction false} CollectsAll(st: Loading, done: seq<string>, lines: seq<string>)
    requires HasCollected(st, done)
    ensures if exists k :: 0 <= k < |lines| && NamesUnknown(lines[k]) then LoadLines(st, lines) == Rejected
            else HasCollected(LoadLines(st, lines), done + lines)
    decreases |lines|
  {
    hide LoadLine, HasCollected, NamesUnknown;
    if lines == [] {
      assert done + lines == done;
    } else {
      CollectsOne(st, done, lines[0]);
      if NamesUnknown(lines[0]) {
        Rejects(lines[1..]);
      } else {
        CollectsAll(LoadLine(st, lines[0]), done + [lines[0]], lines[1..]);
        assert done + [lines[0]] + lines[1..] == done + lines;
        UnknownBehind(lines);
      }
    }
  }

  lemma UnknownBehind(lines: seq<string>)
    requires lines != [] && !NamesUnknown(lines[0])
    ensures (exists k :: 0 <= k < |lines| && NamesUnknown(lines[k])) <==>
              exists k :: 0 <= k < |lines[1..]| && NamesUnknown(lines[1..][k])
  {
    hide NamesUnknown;
    if k :| 0 <= k < |lines| && NamesUnknown(lines[k]) {
      assert lines[1..][k - 1] == lines[k];
    }
    if k :| 0 <= k < |lines[1..]| && NamesUnknown(lines[1..][k]) {
      assert lines[k + 1] == lines[1..][k];
    }
  }

  /**
   * For every text: a state is loaded if and only if the first line starts with the magic word, no later
   * line names an unknown algorithm, and some later line gives each of the hash, the two numbers and the
   * fingerprint; the fields are then as those lines leave them, the last one winning.
   */
  lemma LoadsExactly(text: string)
    ensures var lines := SplitLines(text, 0);
            var fields := if lines == [] then [] else lines[1..];
            && (LoadText(text).Some? <==>
                 && lines != [] && At(lines[0], 0, MAGIC)
                 && !(exists k :: 0 <= k < |fields| && NamesUnknown(fields[k]))
                 && (exists k :: 0 <= k < |fields| && GivesHash(fields[k]))
                 && (exists k :: 0 <= k < |fields| && GivesNumber(fields[k], "seq="))
                 && (exists k :: 0 <= k < |fields| && GivesNumber(fields[k], "sig_seq_from="))
                 && (exists k :: 0 <= k < |fields| && GivesFp(fields[k])))
            && (LoadText(text).Some? ==> LoadText(text).value == Fields(fields))
  {
    hide Fields, LoadLines, SplitLines, At, NamesUnknown, GivesHash, GivesNumber, GivesFp;
    var lines := SplitLines(text, 0);
    if lines != [] {
      CollectedNothing();
      CollectsAll(START, [], lines[1..]);
      assert [] + lines[1..] == lines[1..];
    }
  }

  lemma CollectedNothing()
    ensures HasCollected(START, [])
  {
  }

  /** A piece of the text as one read of the line buffer takes it. */
  predicate IsPiece(piece: string, isLast: bool) {
    && 0 < |piece| <= 255 && (forall k :: 0 <= k < |piece| - 1 ==> piece[k] != '\n')
    && (piece[|piece| - 1] == '\n' || |piece| == 255 || isLast)
  }

  lemma {:induction false} LineEndPiece(text: string, i: nat, room: nat)
    requires i < |text| && room > 0
    ensures var j := LineEnd(text, i, room);
            && 0 < j - i <= room && (forall k :: i <= k < j - 1 ==> text[k] != '\n')
            && (text[j - 1] == '\n' || j - i == room || j == |text|)
    decreases room
  {
    if text[i] != '\n' && room > 1 && i + 1 < |text| {
      LineEndPiece(text, i + 1, room - 1);
    }
  }

  /** The reads cut the whole text, in order, at newlines and where 255 characters are full. */
  lemma {:induction false} SplitIs(text: string, i: nat)
    requires i <= |text|
    ensures var lines := SplitLines(text, i);
            && Concat(lines) == text[i..]
            && forall k :: 0 <= k < |lines| ==> IsPiece(lines[k], k == |lines| - 1)
    decreases |text| - i
  {
    hide LineEnd, IsPiece;
    if i == |text| {
    } else {
      var j := LineEnd(text, i, LINE_BUF);
      LineEndPiece(text, i, LINE_BUF);
      SplitIs(text, j);
      var (lines, rest) := (SplitLines(text, i), SplitLines(text, j));
      assert lines[1..] == rest && text[i..j] + text[j..] == text[i..];
      PieceOf(text, i, j);
      assert rest == [] ==> j == |text| by { NoPieces(text, j); }
      forall k | 0 <= k < |lines| ensures IsPiece(lines[k], k == |lines| - 1) {
        assert k > 0 ==> lines[k] == rest[k - 1];
      }
    }
  }

  lemma NoPieces(text: string, j: nat)
    requires j <= |text|
    ensures SplitLines(text, j) == [] <==> j == |text|
  {
  }

  lemma PieceOf(text: string, i: nat, j: nat)
    requires i < j <= |text| && j - i <= 255 && (forall k :: i <= k < j - 1 ==> text[k] != '\n')
    requires text[j - 1] == '\n' || j - i == 255 || j == |text|
    ensures IsPiece(text[i..j], j == |text|)
    ensures j < |text| ==> IsPiece(text[i..j], false)
  {
  }

  /** A word longer than its limit is cut there. */
  lemma LongWordIsCut(line: string, key: string, blanks: string, word: string, max: nat)
    requires line == key + (blanks + word) && IsWord(word) && |word| >= max > 0
    requires forall k :: 0 <= k < |blanks| ==> IsSpace(blanks[k])
    ensures ScanWord(line, key, max) == Some(word[..max])
  {
    var rest := blanks + word;
    KeyRest(line, key, rest);
    BlanksSkipped(blanks, word);
    WordFills(rest, |blanks|, max);
    assert rest[|blanks|..|blanks| + max] == word[..max];
  }

  lemma {:induction false} BlanksSkipped(blanks: string, word: string)
    requires IsWord(word) && forall k :: 0 <= k < |blanks| ==> IsSpace(blanks[k])
    ensures SpaceRun(blanks + word) == |blanks|
  {
    if blanks == "" {
      assert blanks + word == word;
    } else {
      assert (blanks + word)[1..] == blanks[1..] + word;
      BlanksSkipped(blanks[1..], word);
    }
  }

  lemma {:induction false} WordFills(s: string, i: nat, max: nat)
    requires i + max <= |s| && forall k :: i <= k < i + max ==> !EndsWord(s[k])
    ensures WordEnd(s, i, max) == i + max
    decreases max
  {
    if max > 0 {
      WordFills(s, i + 1, max - 1);
    }
  }

  // ---------- The reading loop ----------

  function Mask(st: Loading): bv8
    requires st.Loading?
  {
    (if st.gotHash then 1 else 0) | (if st.gotNext then 2 else 0) |
    (if st.gotFrom then 4 else 0) | (if st.gotFp then 8 else 0)
  }

  lemma MaskIsFull(st: Loading)
    requires st.Loading?
    ensures Mask(st) == 15 <==> IsComplete(st)
  {
  }

  /** Reads the file line by line, filling the fields and noting in a bit mask which were seen. */
  method LoadState(text: string) returns (result: Option<Saved>)
    ensures result == LoadText(text)
  {
    hide LineEnd, LoadLine, LoadLines, At;
    if text == "" {
      return None;
    }
    var pos := LineEnd(text, 0, LINE_BUF);
    if !At(text[0..pos], 0, MAGIC) {
      return None;
    }
    assert SplitLines(text, 0)[1..] == SplitLines(text, pos);
    var saved := BLANK;
    var got: bv8 := 0;
    ghost var st := START;
    ghost var final := LoadLines(START, SplitLines(text, pos));
    while pos < |text|
      invariant pos <= |text|
      invariant st.Loading? && st.saved == saved && got == Mask(st) && IsSized(saved)
      invariant LoadLines(st, SplitLines(text, pos)) == final
      decreases |text| - pos
    {
      var end := LineEnd(text, pos, LINE_BUF);
      var line := text[pos..end];
      LoadNext(st, text, pos);
      var stepped := ReadField(saved, got, line, st);
      st := LoadLine(st, line);
      if stepped.None? {
        Rejects(SplitLines(text, end));
        return None;
      }
      saved, got := stepped.value.0, stepped.value.1;
      pos := end;
    }
    LoadNone(st);
    MaskIsFull(st);
    if got != 15 {
      return None;
    }
    return Some(saved);
  }

  lemma LoadNone(st: Loading)
    ensures LoadLines(st, []) == st
  {
  }

  lemma LoadNext(st: Loading, text: string, pos: nat)
    requires pos < |text|
    ensures var end := LineEnd(text, pos, LINE_BUF);
            LoadLines(st, SplitLines(text, pos)) == LoadLines(LoadLine(st, text[pos..end]), SplitLines(text, end))
  {
    hide LoadLine, LineEnd;
    var end := LineEnd(text, pos, LINE_BUF);
    assert SplitLines(text, pos)[1..] == SplitLines(text, end);
  }

  /** A rejected line rejects the file, whatever follows. */
  lemma {:induction false} Rejects(lines: seq<string>)
    ensures LoadLines(Rejected, lines) == Rejected
  {
    if lines != [] {
      Rejects(lines[1..]);
    }
  }

  /** Decodes into a buffer that holds `before`; a failure leaves what was written before it. */
  method DecodeOver(hex: string, before: octets) returns (ok: bool, after: octets)
    ensures ok <==> HexDecode(hex).Some? && |hex| / 2 <= |before|
    ensures |hex| / 2 <= |before| ==> after == Overwrite(before, HexWritten(hex))
  {
    hide HexDecode, HexWritten;
    var buf := new byte[|before|](i requires 0 <= i < |before| => before[i]);
    assert buf[..] == before;
    ok := HexDecodeInto(hex, buf);
    after := buf[..];
    if |hex| / 2 <= |before| {
      ghost var w := HexWritten(hex);
      assert after == buf[..|w|] + buf[|w|..];
    }
  }

  /** One pass of the loop body over a line; None is the early return for an unknown algorithm. */
  method ReadField(saved: Saved, got: bv8, line: string, ghost st: Loading) returns (r: Option<(Saved, bv8)>)
    requires st.Loading? && st.saved == saved && got == Mask(st) && IsSized(saved)
    ensures var next := LoadLine(st, line);
            match r case None => next.Rejected?
                    case Some((s, g)) => next.Loading? && next.saved == s && g == Mask(next) && IsSized(s)
  {
    hide ScanWord, ScanNumber, HexDecode, HexWritten, HashFromName, AlgFromHexLen;
    var algo := ScanWord(line, "hashalgo=", 63);
    if algo.Some? {
      var a := HashFromName(algo.value);
      if a.None? {
        return None;
      }
      return Some((saved.(alg := a.value), got));
    }
    var hash := ScanWord(line, "chain_hash=", 128);
    if hash.Some? {
      if AlgFromHexLen(|hash.value|).None? {
        return Some((saved, got));
      }
      var ok, bytes := DecodeOver(hash.value, saved.hash);
      return Some((saved.(hash := bytes), if ok then got | 1 else got));
    }
    var next := ScanNumber(line, "seq=");
    if next.Some? {
      return Some((saved.(next := next.value), got | 2));
    }
    var from := ScanNumber(line, "sig_seq_from=");
    if from.Some? {
      return Some((saved.(sigFrom := from.value), got | 4));
    }
    var fp := ScanWord(line, "pubkey_fp=", 64);
    if fp.Some? && |fp.value| == 2 * HASH_LEN {
      var ok, bytes := DecodeOver(fp.value, saved.fp);
      return Some((saved.(fp := bytes), if ok then got | 8 else got));
    }
    return Some((saved, got));
  }
}

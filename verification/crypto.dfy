/**
 * The cryptographic interface: hash algorithms, the chain H(n) = H(H(n-1) || be64(n) || payload),
 * and the reduction from two chains with one head to a collision of the underlying hash.
 */
module Crypto {
  import opened Wrappers
  import opened Octets

  datatype HashAlg = Sha256 | Sha384 | Sha512

  /** What the verifying primitive answers. */
  datatype Verdict = Valid | Invalid | Failed

  /** The external primitives: a digest function and the check of a signature over a digest. */
  datatype Primitives = Primitives(digest: (HashAlg, string) -> octets, check: (octets, octets) -> Verdict)

  const HASH_LEN: nat := 32
  const HASH_MAX_LEN: nat := 64
  const CHAIN_IV: string := "MMHASHCHAINSIGS_CHAIN_INIT_V1"

  function HashLen(alg: HashAlg): (n: nat)
    ensures HASH_LEN <= n <= HASH_MAX_LEN
  {
    match alg
    case Sha256 => 32
    case Sha384 => 48
    case Sha512 => 64
  }

  function HashName(alg: HashAlg): string {
    match alg
    case Sha256 => "sha256"
    case Sha384 => "sha384"
    case Sha512 => "sha512"
  }

  function LowerCase(s: string): (r: string)
    ensures |r| == |s|
  {
    seq(|s|, i requires 0 <= i < |s| => if 'A' <= s[i] <= 'Z' then (s[i] as int + 32) as char else s[i])
  }

  /** Names are compared without regard to case. */
  function HashFromName(name: string): Option<HashAlg> {
    var lower := LowerCase(name);
    if lower == "sha256" then Some(Sha256)
    else if lower == "sha384" then Some(Sha384)
    else if lower == "sha512" then Some(Sha512)
    else None
  }

  function AlgFromHexLen(n: nat): (r: Option<HashAlg>)
    ensures r.Some? ==> n == 2 * HashLen(r.value)
  {
    if n == 64 then Some(Sha256) else if n == 96 then Some(Sha384) else if n == 128 then Some(Sha512) else None
  }

  /** The algorithm is recovered from its name, and from the printed width of its hashes. */
  lemma AlgRoundTrip(alg: HashAlg)
    ensures HashFromName(HashName(alg)) == Some(alg)
    ensures AlgFromHexLen(2 * HashLen(alg)) == Some(alg)
  {
    var name := HashName(alg);
    assert forall i :: 0 <= i < |name| ==> !('A' <= name[i] <= 'Z');
    assert LowerCase(name) == name;
  }

  /** The digest, cut or padded to the length its algorithm fixes. */
  function Digest(p: Primitives, alg: HashAlg, input: string): (d: octets)
    ensures |d| == HashLen(alg)
  {
    var d := p.digest(alg, input);
    if |d| >= HashLen(alg) then d[..HashLen(alg)] else d + Zeros(HashLen(alg) - |d|)
  }

  function ChainInput(prev: octets, n: nat, payload: string): string {
    prev + Be64(n) + payload
  }

  function Link(p: Primitives, alg: HashAlg, prev: octets, n: nat, payload: string): (d: octets)
    ensures |d| == HashLen(alg)
  {
    Digest(p, alg, ChainInput(prev, n, payload))
  }

  function InitHash(p: Primitives, alg: HashAlg): (d: octets)
    ensures |d| == HashLen(alg)
  {
    Digest(p, alg, CHAIN_IV)
  }

  /** The head of the chain over a list of payloads, numbered from one. */
  function Fold(p: Primitives, alg: HashAlg, payloads: seq<string>): (d: octets)
    ensures |d| == HashLen(alg)
  {
    if payloads == [] then InitHash(p, alg)
    else
      var n := |payloads|;
      Link(p, alg, Fold(p, alg, payloads[..n - 1]), n, payloads[n - 1])
  }

  datatype Collision = Collision(x: string, y: string)

  /** Two different inputs with one digest. */
  predicate IsCollision(p: Primitives, alg: HashAlg, c: Collision) {
    c.x != c.y && Digest(p, alg, c.x) == Digest(p, alg, c.y)
  }

  /** The layout is injective: a chain input determines the previous hash, the number and the payload. */
  lemma ChainInputInjective(prev: octets, n: nat, x: string, prev': octets, n': nat, x': string)
    requires |prev| == |prev'| && n < TWO_64 && n' < TWO_64
    requires ChainInput(prev, n, x) == ChainInput(prev', n', x')
    ensures prev == prev' && n == n' && x == x'
  {
    ChainInputParts(prev, n, x, prev', n', x');
    Be64RoundTrip(n);
    Be64RoundTrip(n');
  }

  lemma ChainInputParts(prev: octets, n: nat, x: string, prev': octets, n': nat, x': string)
    requires |prev| == |prev'| && ChainInput(prev, n, x) == ChainInput(prev', n', x')
    ensures prev == prev' && Be64(n) == Be64(n') && x == x'
  {
    var k := |prev|;
    var s, s' := ChainInput(prev, n, x), ChainInput(prev', n', x');
    assert s[..k] == prev && s'[..k] == prev';
    assert s[k..k + 8] == Be64(n) && s'[k..k + 8] == Be64(n');
    assert s[k + 8..] == x && s'[k + 8..] == x';
  }

  /** The digest input behind the head of a chain. */
  function HeadInput(p: Primitives, alg: HashAlg, payloads: seq<string>): (s: string)
    ensures Fold(p, alg, payloads) == Digest(p, alg, s)
  {
    if payloads == [] then CHAIN_IV
    else
      var n := |payloads|;
      ChainInput(Fold(p, alg, payloads[..n - 1]), n, payloads[n - 1])
  }

  /** The initial vector is shorter than every chain input. */
  lemma HeadIsNotInit(p: Primitives, alg: HashAlg, payloads: seq<string>)
    requires payloads != []
    ensures HeadInput(p, alg, payloads) != CHAIN_IV
  {
    assert |CHAIN_IV| == 29;
    assert |HeadInput(p, alg, payloads)| >= HASH_LEN + 8;
  }

  /**
   * Walks two different chains with the same head back to the first place where different inputs
   * have the same digest.
   */
  function FindCollision(p: Primitives, alg: HashAlg, ps: seq<string>, qs: seq<string>): (c: Collision)
    requires ps != qs && Fold(p, alg, ps) == Fold(p, alg, qs)
    ensures IsCollision(p, alg, c)
    decreases |ps|
  {
    var x, y := HeadInput(p, alg, ps), HeadInput(p, alg, qs);
    if x != y then Collision(x, y)
    else
      var (m, n) := (|ps|, |qs|);
      SameHeadInput(p, alg, ps, qs);
      FindCollision(p, alg, ps[..m - 1], qs[..n - 1])
  }

  lemma SameHeadInput(p: Primitives, alg: HashAlg, ps: seq<string>, qs: seq<string>)
    requires ps != qs && HeadInput(p, alg, ps) == HeadInput(p, alg, qs)
    ensures ps != [] && qs != []
    ensures var (m, n) := (|ps|, |qs|);
            && ps[..m - 1] != qs[..n - 1]
            && Fold(p, alg, ps[..m - 1]) == Fold(p, alg, qs[..n - 1])
  {
    hide Digest, ChainInput, Be64;
    if ps != [] {
      HeadIsNotInit(p, alg, ps);
    }
    if qs != [] {
      HeadIsNotInit(p, alg, qs);
    }
    var (m, n) := (|ps|, |qs|);
    ChainInputParts(Fold(p, alg, ps[..m - 1]), m, ps[m - 1], Fold(p, alg, qs[..n - 1]), n, qs[n - 1]);
    assert ps == ps[..m - 1] + [ps[m - 1]] && qs == qs[..n - 1] + [qs[n - 1]];
  }

  /** Binding: one head means one list of payloads, or the walk back finds a collision. */
  lemma ChainBinding(p: Primitives, alg: HashAlg, ps: seq<string>, qs: seq<string>)
    ensures Fold(p, alg, ps) == Fold(p, alg, qs) ==> ps == qs || IsCollision(p, alg, FindCollision(p, alg, ps, qs))
  {
    if ps != qs && Fold(p, alg, ps) == Fold(p, alg, qs) {
      var c := FindCollision(p, alg, ps, qs);
      assert IsCollision(p, alg, c);
    }
  }
}

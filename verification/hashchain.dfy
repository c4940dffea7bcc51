/** The signer's chain state: current head, next number and messages since the last signature. */
module HashChains {
  import opened Octets
  import opened Crypto

  datatype ChainState = ChainState(alg: HashAlg, current: octets, next: nat, count: nat)

  function FreshChain(p: Primitives, alg: HashAlg): ChainState {
    ChainState(alg, InitHash(p, alg), 1, 0)
  }

  function Extended(p: Primitives, c: ChainState, payload: string): ChainState {
    ChainState(c.alg, Link(p, c.alg, c.current, c.next, payload), c.next + 1, c.count + 1)
  }

  /** The chain has been fed exactly these payloads since its initial vector. */
  predicate Tracks(p: Primitives, c: ChainState, fed: seq<string>) {
    c.current == Fold(p, c.alg, fed) && c.next == |fed| + 1
  }

  lemma ExtendTracks(p: Primitives, c: ChainState, fed: seq<string>, payload: string)
    requires Tracks(p, c, fed)
    ensures Tracks(p, Extended(p, c, payload), fed + [payload])
  {
    var ps := fed + [payload];
    assert ps[..|ps| - 1] == fed;
  }

  class HashChain {
    const prims: Primitives
    var alg: HashAlg
    var current: octets
    var next: nat
    var count: nat

    ghost function State(): ChainState
      reads this
    {
      ChainState(alg, current, next, count)
    }

    constructor (prims: Primitives, alg: HashAlg)
      ensures this.prims == prims && State() == FreshChain(prims, alg)
    {
      this.prims := prims;
      this.alg, current, next, count := alg, InitHash(prims, alg), 1, 0;
    }

    method Init(alg: HashAlg)
      modifies this
      ensures State() == FreshChain(prims, alg)
    {
      this.alg := alg;
      next := 1;
      count := 0;
      current := InitHash(prims, alg);
    }

    method Update(payload: string)
      modifies this
      ensures State() == Extended(prims, old(State()), payload)
    {
      current := Link(prims, alg, current, next, payload);
      next := next + 1;
      count := count + 1;
    }

    method ResetCount()
      modifies this
      ensures State() == old(State()).(count := 0)
    {
      count := 0;
    }

    method Reset()
      modifies this
      ensures State() == FreshChain(prims, old(alg))
    {
      Init(alg);
    }
  }
}

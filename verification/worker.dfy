/** The worker object: the chain and counters it updates in place, call by call. */
module SigningWorker {
  import opened Wrappers
  import opened Octets
  import opened Crypto
  import opened SdRecords
  import opened HashChains
  import opened StateFile
  import opened Signer

  class Worker {
    const cfg: SignerConfig
    const chain: HashChain
    var sigSeqFrom: nat
    var initialized: bool
    var isFirst: bool
    var pending: Option<Saved>

    ghost predicate Valid()
      reads this
    {
      chain.prims == cfg.prims
    }

    ghost function State(): WorkerState
      reads this, chain
    {
      WorkerState(chain.State(), sigSeqFrom, initialized, isFirst, pending)
    }

    /** Creation reads the state file when a directory is configured. */
    constructor (cfg: SignerConfig, text: Option<string>)
      ensures Valid() && this.cfg == cfg && fresh(chain)
      ensures State() == Restarted(cfg, if cfg.stateDir then text else None)
    {
      this.cfg := cfg;
      chain := new HashChain(cfg.prims, cfg.alg);
      sigSeqFrom, initialized, isFirst, pending := 1, false, true, None;
      new;
      if cfg.stateDir && text.Some? {
        pending := LoadState(text.value);
      }
    }

    method Initialize() returns (ok: bool)
      requires Valid()
      modifies this, chain
      ensures Valid() && ok == cfg.keyOk
      ensures State() == if ok then JustInitialized(cfg, old(State())) else old(State())
    {
      if !cfg.keyOk {
        return false;
      }
      chain.Init(cfg.alg);
      sigSeqFrom := 1;
      initialized := true;
      isFirst := true;
      return true;
    }

    /** One message; `dropState` says that the state file is to be deleted. */
    method OnMessage(payload: string, sign: SignCall, cap: nat)
      returns (out: Option<string>, ghost signed: Option<octets>, dropState: bool)
      requires Valid()
      modifies this, chain
      ensures Valid() && Step(State(), out, signed) == Signer.ProcessMsg(cfg, old(State()), payload, sign, cap)
      ensures dropState <==> old(pending).Some? && cfg.stateDir && (old(initialized) || cfg.keyOk)
    {
      hide Signer.Append, Signer.ProcessFinal;
      dropState := false;
      signed := None;
      if !initialized {
        var ok := Initialize();
        if !ok {
          return None, None, false;
        }
      }
      if pending.Some? {
        var st := pending.value;
        pending := None;
        var code, s := OnFinal(st, payload, sign, cap);
        signed := s;
        dropState := cfg.stateDir;
        if code.Emitted? {
          return Some(code.sd), signed, dropState;
        }
      }
      var o, s := Chain(payload, sign, cap);
      out := o;
      signed := if s.Some? then s else signed;
    }

    /** Extends the chain and formats the record: the first, a due signature, or a plain one. */
    method Chain(payload: string, sign: SignCall, cap: nat) returns (out: Option<string>, ghost signed: Option<octets>)
      requires Valid()
      modifies this, chain
      ensures Valid() && pending == old(pending)
      ensures Step(State(), out, signed) == Append(cfg, old(State()), payload, sign, cap)
    {
      hide FormatRecord, WithCert, Link;
      signed := None;
      chain.Update(payload);
      var n := chain.next - 1;
      if isFirst {
        out := FormatRecord(InitRecord(n, chain.current, cfg.fp), cap);
        isFirst := false;
        if out.Some? {
          out := Some(WithCert(cfg, out.value, cap));
        }
      } else if chain.count >= cfg.interval {
        var sig := sign(chain.current);
        if sig.None? {
          return None, None;
        }
        signed := Some(chain.current);
        out := FormatRecord(SigRecord(n, chain.current, sigSeqFrom, n, sig.value), cap);
        sigSeqFrom := n + 1;
        chain.ResetCount();
      } else {
        out := FormatRecord(MsgRecord(n, chain.current), cap);
      }
    }

    method OnFinal(st: Saved, payload: string, sign: SignCall, cap: nat)
      returns (code: FinalCode, ghost signed: Option<octets>)
      requires Valid()
      modifies this, chain
      ensures Valid()
      ensures FinalStep(State(), code, signed) == Signer.ProcessFinal(cfg, old(State()), st, payload, sign, cap)
    {
      hide FormatRecord, Link, InitHash;
      signed := None;
      if st.fp != cfg.fp {
        return KeyMismatch, None;
      }
      if st.alg != cfg.alg {
        return KeyMismatch, None;
      }
      chain.Init(st.alg);
      chain.current := FirstOctets(st.hash, HashLen(st.alg));
      chain.next := st.next;
      chain.Update(payload);
      var n := chain.next - 1;
      var sig := sign(chain.current);
      if sig.None? {
        chain.Init(cfg.alg);
        return Failure, None;
      }
      signed := Some(chain.current);
      var out := FormatRecord(SigRecord(n, chain.current, st.sigFrom, n, sig.value), cap);
      chain.Init(cfg.alg);
      isFirst := true;
      sigSeqFrom := 1;
      code := match out case Some(sd) => Emitted(sd) case None => Failure;
    }

    method OnClose(sign: SignCall, cap: nat) returns (code: ClosingCode, ghost signed: Option<octets>)
      requires Valid()
      modifies this, chain
      ensures Valid() && ClosingStep(State(), code, signed) == Signer.FinalSign(cfg, old(State()), sign, cap)
    {
      hide FormatRecord, Link;
      signed := None;
      if !initialized || chain.count == 0 {
        return Idle, None;
      }
      chain.Update("");
      var n := chain.next - 1;
      var sig := sign(chain.current);
      if sig.None? {
        return ClosingFailed, None;
      }
      signed := Some(chain.current);
      var out := FormatRecord(SigRecord(n, chain.current, sigSeqFrom, n, sig.value), cap);
      if out.None? {
        return ClosingFailed, signed;
      }
      sigSeqFrom := n + 1;
      chain.ResetCount();
      return Closed(out.value), signed;
    }

    /** The text left for the next start, if anything is unsigned. */
    method SaveState() returns (text: Option<string>)
      requires Valid()
      ensures text == StateText(cfg, State())
    {
      if !initialized || chain.count == 0 {
        return None;
      }
      return Some(SaveText(Snapshot(chain.alg, chain.current, chain.next, sigSeqFrom, cfg.fp)));
    }
  }
}

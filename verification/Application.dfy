/** The application object: running state, lagging state, and the calls the consensus engine makes. */
module Application {
  import opened Ids
  import opened Ledger
  import opened Chain
  import opened PreCheck

  class ABCIApp<P(!new,==)> {
    const env: Env<P>
    var state: State<P>
    var laggingState: State<P>

    constructor (env: Env<P>)
      requires EnvOk(env)
      ensures this.env == env && state == Init() && laggingState == Init()
    {
      this.env := env;
      state, laggingState := Init(), Init();
    }

    /** The assignment rule. */
    method DeliverAssign(tx: Tx<P>) returns (ok: bool)
      requires EnvOk(env) && tx.Assign?
      modifies `state
      ensures var f := JudgeAssign(env, old(state), tx);
              state == Apply(old(state), f) && ok == Accepted(f)
    {
      var may := CheckMayAssign(env, state);
      if !may || state.lastUnassigned >= state.lastCreated {
        return false;
      }
      var i := state.lastUnassigned;
      var user := VerifierKey(tx.verifier, tx.verifierID);
      var keyIndexes := Sorted(ListOf(state.vt, user) + [i]);
      var dkgID := GenerateDKGID(i);
      var pk := if dkgID in state.pubKeys then state.pubKeys[dkgID].gs else env.g.zero;
      if state.failed == MaxFailedPubKeyAssigns {
        state := state.(failed := 0, lastUnassigned := state.lastCreated);
        return true;
      } else if env.blank(pk) {
        state := state.(failed := state.failed + 1);
        return false;
      }
      var m := KeyMapping(i, pk, 1, map[tx.verifier := [tx.verifierID]]);
      state := state.(failed := 0, km := state.km[i := m]);
      state := state.(vt := state.vt[user := keyIndexes]);
      state := state.(lastUnassigned := state.lastUnassigned + 1, newKeys := state.newKeys + [m]);
      state := state.(pubKeys := state.pubKeys - {dkgID});
      ok := true;
    }

    method DeliverPropose(tx: Tx<P>) returns (ok: bool)
      requires EnvOk(env) && tx.KeygenPropose?
      modifies `state
      ensures var f := Judge(env, old(state), tx, 0);
              state == Apply(old(state), f) && ok == Accepted(f)
    {
      if tx.dkgID in state.keygenDecisions || |tx.keygens| < env.k || |tx.keygens| != |tx.proofs| {
        return false;
      }
      var sum;
      ok, sum := CheckProposal(env, tx);
      if ok {
        state := state.(keygenDecisions := state.keygenDecisions + {tx.dkgID},
                        pubKeys := state.pubKeys[tx.dkgID := PubKey(sum, env.g.zero)]);
      }
    }

    method DeliverPubKey(tx: Tx<P>) returns (ok: bool)
      requires EnvOk(env) && tx.KeygenPubKey?
      modifies `state
      ensures var f := JudgePubKey(env, old(state), tx);
              state == Apply(old(state), f) && ok == Accepted(f)
    {
      if |tx.keyProofs| != env.k || tx.dkgID !in state.pubKeys {
        return false;
      }
      var decision := state.pubKeys[tx.dkgID];
      if decision.gs != env.g.zero {
        return false;
      }
      var gs := CheckPubKey(env, tx.keyProofs, decision.gshs);
      if gs.None? {
        return false;
      }
      state := state.(pubKeys := state.pubKeys[tx.dkgID := decision.(gs := gs.value)]);
      if DKGIndex(tx.dkgID).None? {
        return false;
      }
      state := state.(lastCreated := state.lastCreated + 1);
      ok := true;
    }

    /** `isThawed` */
    method IsThawed(mid: string) returns (thawed: bool)
      modifies `state
      ensures var c := CounterOf(old(state), mid);
              && thawed == (c.required != 0 && c.required == c.keys)
              && state == if thawed then old(state).(counters := old(state).counters - {mid},
                                                     keyVotes := old(state).keyVotes - {mid}) else old(state)
    {
      var c := CounterOf(state, mid);
      if c.required == 0 {
        return false;
      }
      if c.required != c.keys {
        return false;
      }
      state := state.(counters := state.counters - {mid});
      state := state.(keyVotes := state.keyVotes - {mid});
      thawed := true;
    }

    method DeliverSummary(tx: Tx<P>, sender: Node) returns (ok: bool)
      requires tx.Summary?
      modifies `state
      ensures var f := JudgeVote(env, old(state), tx, sender);
              state == Apply(old(state), f) && ok == Accepted(f)
    {
      if tx.mid in state.thawed {
        return false;
      }
      var votes := SummaryVotes(state, tx.mid);
      if sender in Voters(votes, tx.last) {
        return false;
      }
      var voters := Voters(votes, tx.last) + {sender};
      state := state.(summaries := state.summaries[tx.mid := votes[tx.last := voters]]);
      if |voters| == env.k {
        var counter := CounterOf(state, tx.mid);
        state := state.(counters := state.counters[tx.mid := counter.(required := tx.last)], lastUnassigned := tx.last);
        if state.lastCreated < tx.last {
          state := state.(lastCreated := tx.last);
        }
        var thawed := IsThawed(tx.mid);
        if thawed {
          state := state.(thawed := state.thawed + {tx.mid});
        }
      }
      ok := true;
    }

    method DeliverKey(tx: Tx<P>, sender: Node) returns (ok: bool)
      requires tx.Key?
      modifies `state
      ensures var f := JudgeVote(env, old(state), tx, sender);
              state == Apply(old(state), f) && ok == Accepted(f)
    {
      if tx.mid in state.thawed {
        return false;
      }
      var votes := KeyVotes(state, tx.mid);
      if sender in Voters(votes, tx.key) {
        return false;
      }
      var voters := Voters(votes, tx.key) + {sender};
      state := state.(keyVotes := state.keyVotes[tx.mid := votes[tx.key := voters]]);
      if |voters| == env.k {
        var counter := CounterOf(state, tx.mid);
        state := state.(counters := state.counters[tx.mid := counter.(keys := counter.keys + 1)]);
        state := state.(km := state.km[tx.key.index := tx.key]);
        var vt := StoreUsers(state.vt, tx.key);
        state := state.(vt := vt);
        var thawed := IsThawed(tx.mid);
        if thawed {
          state := state.(thawed := state.thawed + {tx.mid});
        }
      }
      ok := true;
    }

    method DeliverTx(tx: Tx<P>, sender: Node) returns (ok: bool)
      requires EnvOk(env)
      modifies `state
      ensures Outcome(state, ok) == Step(env, old(state), tx, sender)
    {
      match tx {
        case Assign(_, _) => ok := DeliverAssign(tx);
        case KeygenPropose(_, _, _) => ok := DeliverPropose(tx);
        case KeygenPubKey(_, _) => ok := DeliverPubKey(tx);
        case PssPropose(id, _, _) =>
          ok := CheckPss(env, state, tx);
          if ok {
            state := state.(pssDecisions := state.pssDecisions + {id});
          }
        case Freeze(mid, proposed) =>
          ok := mid !in state.thawed && sender !in Voters(state.freezes, proposed);
          if ok {
            state := state.(freezes := state.freezes[proposed := Voters(state.freezes, proposed) + {sender}]);
          }
        case Summary(_, _) => ok := DeliverSummary(tx, sender);
        case Key(_, _) => ok := DeliverKey(tx, sender);
        case UpdateKey(i, key, signature) =>
          ok := i in state.km && env.dealerOk(state.km[i].key, key, signature);
          if ok {
            var m := state.km[i].(key := key);
            state := state.(km := state.km[m.index := m]);
          }
        case Unknown => ok := false;
      }
    }

    /** `CheckTx` reads and decides; nothing changes. */
    method CheckTx(tx: Tx<P>, sender: Node) returns (ok: bool)
      requires EnvOk(env)
      ensures ok == Accepts(env, state, laggingState, tx, sender)
    {
      var lag := laggingState;
      match tx {
        case Assign(_, _) =>
          ok := CheckMayAssign(env, state);
          ok := ok && lag.lastUnassigned < lag.lastCreated;
        case KeygenPropose(d, keygens, proofs) =>
          if d in lag.keygenDecisions || |keygens| < env.k || |keygens| != |proofs| {
            return false;
          }
          var unused;
          ok, unused := CheckProposal(env, tx);
        case KeygenPubKey(d, ps) =>
          if |ps| != env.k || d !in lag.pubKeys || lag.pubKeys[d].gs != env.g.zero {
            return false;
          }
          var gs := CheckPubKey(env, ps, lag.pubKeys[d].gshs);
          ok := gs.Some?;
        case PssPropose(_, _, _) => ok := CheckPss(env, lag, tx);
        case Freeze(mid, proposed) => ok := mid !in lag.thawed && sender !in Voters(lag.freezes, proposed);
        case Summary(mid, last) => ok := mid !in lag.thawed && sender !in Voters(SummaryVotes(lag, mid), last);
        case Key(mid, key) => ok := mid !in lag.thawed && sender !in Voters(KeyVotes(lag, mid), key);
        case UpdateKey(i, key, signature) => ok := i in state.km && env.dealerOk(state.km[i].key, key, signature);
        case Unknown => ok := false;
      }
    }

    method BeginBlock()
      modifies `state
      ensures state == old(state).(newKeys := [])
    {
      state := state.(newKeys := []);
    }

    method Commit()
      modifies `laggingState
      ensures laggingState == state
    {
      laggingState := state;
    }
  }
}

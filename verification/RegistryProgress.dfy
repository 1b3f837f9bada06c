/** How Registry transactions end. */
module RegistryProgress {
  import opened Wrappers
  import opened RegistryTables
  import opened RegistryTransactions

  // No transaction is stuck behind the row lock, each gets the answer of its commit unless a deadline or an
  // error intervenes, and an answer once given is never taken back.

  /** Statements left to a transaction past its lock. */
  function StatementsLeft(tx: Transaction): nat {
    match tx.next
    case LockMetadataRow => 16
    case SelectOperation => 15
    case CountKey => 14
    case CountName => 13
    case CountCandidate => if |tx.drawn| <= 8 then 12 - |tx.drawn| else 3
    case InsertOperation(_) => 2
    case DeleteExpired => 5
    case CountNonce => 4
    case CountNonces => 3
    case InsertNonce => 2
    case Commit(_) => 1
    case Fail => 0
  }

  /** Eight drawn ids, each with a row. */
  ghost predicate IsDrawnOut(t: Tables, tx: Transaction) {
    |tx.drawn| == 8 && forall k :: 0 <= k < 8 ==> HasId(t.agents, tx.drawn[k])
  }

  lemma {:induction false} AllDrawnAreUsed(rows: seq<AgentRow>, drawn: seq<AgentId>)
    requires FirstUnused(rows, drawn) == None
    ensures forall k :: 0 <= k < |drawn| ==> HasId(rows, drawn[k])
  {
    FirstUnusedFacts(rows, drawn);
    forall k | 0 <= k < |drawn| ensures HasId(rows, drawn[k]) {
      assert IdUsed(rows, drawn[k]);
    }
  }

  /** What a statement does to the transactions: this one goes on, or ends with an error when no id is free. */
  lemma StatementGoesOn(s: State, id: TransactionId, candidate: AgentId, clock: int)
    requires Inv(s) && Enabled(s, Run(id, candidate, clock))
    ensures var (tx, t) := (s.running[id], Apply(s, Run(id, candidate, clock)));
      && t.history == s.history && t.tables == s.tables
      && (id in t.running ==>
            t.running.Keys == s.running.Keys && t.lock == s.lock && t.outcomes == s.outcomes
            && t.running[id].work == tx.work && StatementsLeft(t.running[id]) < StatementsLeft(tx))
      && (id !in t.running ==>
            t.running == s.running - {id} && t.lock == None
            && t.outcomes == s.outcomes[id := InternalServerError]
            && tx.work.RegisterWork? && IsDrawnOut(s.tables, tx))
      && (forall other :: other in s.running && other != id ==>
          other in t.running && t.running[other] == s.running[other])
  {
    assert TransactionInv(s, id);
    var tx := s.running[id];
    if tx.next.CountCandidate? {
      AllDrawnAreUsed(s.tables.agents, tx.drawn);
    }
  }

  /** The transaction has ended: committed and answered with its entry's reply, or failed without a trace. */
  ghost predicate Ended(s: State, t: State, id: TransactionId) {
    && id in s.running && t.running == s.running - {id} && t.lock == None
    && (if t.history == s.history then
          t.tables == s.tables && t.outcomes == s.outcomes[id := InternalServerError]
            && s.running[id].work.RegisterWork?
        else
          && |t.history| == |s.history| + 1 && s.history <= t.history
          && t.history[|s.history|].id == id && t.history[|s.history|].work == s.running[id].work
          && t.outcomes == s.outcomes[id := Answered(t.history[|s.history|].reply)])
  }

  lemma CommitEnds(s: State, id: TransactionId)
    requires Inv(s) && s.lock == Some(id) && s.running[id].next.Commit?
    ensures Enabled(s, CommitNow(id, true)) && Ended(s, Apply(s, CommitNow(id, true)), id)
  {
  }

  lemma EndedEarlier(s: State, between: State, t: State, id: TransactionId)
    requires Ended(between, t, id) && id in s.running && between.running[id].work == s.running[id].work
    requires between.history == s.history && between.tables == s.tables && between.outcomes == s.outcomes
    requires between.running.Keys == s.running.Keys
    requires forall other :: other in s.running && other != id ==> between.running[other] == s.running[other]
    ensures Ended(s, t, id)
  {
    assert between.running - {id} == s.running - {id};
  }

  /** The holder of the lock comes to its end by its own statements, whatever it draws. */
  lemma {:induction false} HolderFinishes(s: State, id: TransactionId, draws: nat -> AgentId, clock: int)
    returns (steps: seq<Step>)
    requires Inv(s) && s.lock == Some(id)
    ensures After(s, steps).Some? && Ended(s, After(s, steps).value, id)
    decreases StatementsLeft(s.running[id])
  {
    if s.running[id].next.Commit? {
      CommitEnds(s, id);
      steps := [CommitNow(id, true)];
      assert After(Apply(s, steps[0]), steps[1..]) == Some(Apply(s, steps[0]));
    } else {
      var step := Run(id, draws(|s.running[id].drawn|), clock);
      var t := Apply(s, step);
      StatementGoesOn(s, id, draws(|s.running[id].drawn|), clock);
      if id in t.running {
        StepKeepsInv(s, step);
        var rest := HolderFinishes(t, id, draws, clock);
        EndedEarlier(s, t, After(t, rest).value, id);
        steps := [step] + rest;
        assert steps[1..] == rest;
      } else {
        steps := [step];
        assert After(t, steps[1..]) == Some(t);
      }
    }
  }

  lemma WaiterFinishes(s: State, id: TransactionId, draws: nat -> AgentId, clock: int) returns (steps: seq<Step>)
    requires Inv(s) && s.lock == None && id in s.running
    ensures After(s, steps).Some? && Ended(s, After(s, steps).value, id)
  {
    assert TransactionInv(s, id);
    var t := Apply(s, AcquireLock(id));
    StepKeepsInv(s, AcquireLock(id));
    var rest := HolderFinishes(t, id, draws, clock);
    EndedEarlier(s, t, After(t, rest).value, id);
    steps := [AcquireLock(id)] + rest;
    assert steps[1..] == rest;
  }

  /**
   * No transaction is stuck: from every reachable state, with no more than the steps of the lock's holder
   * and its own, each running transaction gets the answer it commits, or the error of eight used ids.
   */
  lemma EveryTransactionCanFinish(s: State, id: TransactionId, draws: nat -> AgentId, clock: int)
    returns (steps: seq<Step>)
    requires Reachable(s) && id in s.running
    ensures After(s, steps).Some? && id in After(s, steps).value.outcomes
    ensures After(s, steps).value.outcomes[id] != Unavailable
  {
    ReachableInv(s);
    if s.lock == None {
      steps := WaiterFinishes(s, id, draws, clock);
    } else {
      var holder := s.lock.value;
      steps := HolderFinishes(s, holder, draws, clock);
      if id != holder {
        var t := After(s, steps).value;
        RunsKeepInv(s, steps);
        var more := WaiterFinishes(t, id, draws, clock);
        RunsCompose(s, steps, more);
        steps := steps + more;
      }
    }
  }

  lemma StepKeepsOutcome(s: State, step: Step, id: TransactionId)
    requires Inv(s) && Enabled(s, step)
    ensures s.history <= Apply(s, step).history
    ensures id in s.outcomes ==> id in Apply(s, step).outcomes && Apply(s, step).outcomes[id] == s.outcomes[id]
  {
    assert OutcomeInv(s, id);
  }

  /** What a caller was told stays so, and the committed history only grows. */
  lemma {:induction false} OutcomesAreFinal(s: State, steps: seq<Step>, id: TransactionId)
    requires Inv(s) && After(s, steps).Some?
    ensures var t := After(s, steps).value;
      s.history <= t.history && (id in s.outcomes ==> id in t.outcomes && t.outcomes[id] == s.outcomes[id])
    decreases |steps|
  {
    if steps != [] {
      StepKeepsOutcome(s, steps[0], id);
      StepKeepsInv(s, steps[0]);
      OutcomesAreFinal(Apply(s, steps[0]), steps[1..], id);
    }
  }

  /** How a caller comes to be told something new. */
  ghost predicate IsReason(s: State, step: Step, id: TransactionId, outcome: Outcome) {
    id in s.running &&
    match outcome
    case Answered(reply) => step == CommitNow(id, true) && s.running[id].next == Commit(reply)
    case Unavailable => step == Abort(id) || step == CommitNow(id, false)
    case InternalServerError => step.Run? && step.id == id && IsDrawnOut(s.tables, s.running[id])
  }

  lemma StepHasReason(s: State, step: Step, id: TransactionId)
    requires Inv(s) && Enabled(s, step) && id !in s.outcomes && id in Apply(s, step).outcomes
    ensures IsReason(s, step, id, Apply(s, step).outcomes[id])
  {
    if step.Run? { StatementGoesOn(s, step.id, step.candidate, step.clock); }
  }

  /**
   * Every outcome has its reason: a caller is answered by a commit in time, told `Unavailable` by an abort
   * or a late commit only, and told of an internal error only when all eight ids drawn were in use.
   */
  lemma {:induction false} EveryOutcomeHasReason(steps: seq<Step>, n: nat, id: TransactionId)
    returns (k: nat, before: State)
    requires n <= |steps| && After(INITIAL, steps[..n]).Some? && id in After(INITIAL, steps[..n]).value.outcomes
    ensures k < n && After(INITIAL, steps[..k]) == Some(before) && Enabled(before, steps[k])
    ensures IsReason(before, steps[k], id, After(INITIAL, steps[..n]).value.outcomes[id])
  {
    assert n > 0;
    assert steps[..n] == steps[..n - 1] + [steps[n - 1]];
    RunSnoc(INITIAL, steps[..n - 1], steps[n - 1]);
    before := After(INITIAL, steps[..n - 1]).value;
    ReachableInv(before);
    if id in before.outcomes {
      StepKeepsOutcome(before, steps[n - 1], id);
      k, before := EveryOutcomeHasReason(steps, n - 1, id);
    } else {
      k := n - 1;
      StepHasReason(before, steps[k], id);
    }
  }

  lemma {:induction false} RunSnoc(s: State, steps: seq<Step>, step: Step)
    requires After(s, steps + [step]).Some?
    ensures After(s, steps).Some? && Enabled(After(s, steps).value, step)
    ensures After(s, steps + [step]) == Some(Apply(After(s, steps).value, step))
    decreases |steps|
  {
    if steps == [] {
      assert (steps + [step])[1..] == [];
    } else {
      assert (steps + [step])[1..] == steps[1..] + [step];
      RunSnoc(Apply(s, steps[0]), steps[1..], step);
    }
  }
}

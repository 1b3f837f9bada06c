/** Interleaved Registry transactions, packages/registry/src/storage.ts. */
module RegistryTransactions {
  import opened Wrappers
  import opened InsertionMaps
  import opened ByteStrings
  import opened NonceClaims
  import opened RegistryTables

  // One step is one SQL statement, a commit or an abort. Each statement reads the committed tables as
  // they are then, with the transaction's own writes; the only exclusion is the `FOR UPDATE` lock on the
  // singleton metadata row. The main result is that every interleaving leaves the tables and the answers
  // of a serial order.

  type TransactionId = nat

  datatype Work =
    | RegisterWork(call: RegisterCall)
    | ClaimWork(capacity: nat, nonce: Nonce, expires: int, now: int)

  datatype Reply = RegisterReply(result: RegisterResult) | ClaimReply(claim: Claim)

  /** The statement a transaction runs next. */
  datatype Next =
    | LockMetadataRow
    | SelectOperation
    | CountKey
    | CountName
    | CountCandidate
    | InsertOperation(result: RegisterResult)
    | DeleteExpired
    | CountNonce
    | CountNonces
    | InsertNonce
    | Commit(reply: Reply)
    | Fail  // eight candidates were all in use

  datatype Write =
    | AgentInserted(agent: AgentRow)
    | OperationInserted(operation: OperationRow)
    | ExpiredDeleted(now: int)
    | NonceInserted(nonce: Nonce, expires: int)

  function Written(t: Tables, w: Write): Tables {
    match w
    case AgentInserted(row) => t.(agents := t.agents + [row])
    case OperationInserted(row) => t.(operations := t.operations + [row])
    case ExpiredDeleted(now) => t.(nonces := Unexpired(t.nonces, now))
    case NonceInserted(nonce, expires) => t.(nonces := t.nonces + [(nonce, expires)])
  }

  /** The tables as a transaction with these uncommitted writes reads them. */
  function View(t: Tables, writes: seq<Write>): Tables {
    if writes == [] then t else Written(View(t, writes[..|writes| - 1]), writes[|writes| - 1])
  }

  lemma ViewSnoc(t: Tables, writes: seq<Write>, w: Write)
    ensures View(t, writes + [w]) == Written(View(t, writes), w)
  {
    assert (writes + [w])[..|writes + [w]| - 1] == writes;
  }

  /** `drawn` are the candidate identifiers drawn so far; `issuedAt` is the clock read when minting. */
  datatype Transaction = Transaction(work: Work, next: Next, writes: seq<Write>, drawn: seq<AgentId>, issuedAt: int)

  /** One committed transaction, in commit order. */
  datatype Committed = Committed(id: TransactionId, work: Work, drawn: seq<AgentId>, issuedAt: int, reply: Reply)

  /** What the caller saw. A deadline that fires after the commit also reads `Unavailable`. */
  datatype Outcome = Answered(reply: Reply) | Unavailable | InternalServerError

  datatype State = State(
    tables: Tables,
    lock: Option<TransactionId>,
    running: map<TransactionId, Transaction>,
    outcomes: map<TransactionId, Outcome>,
    history: seq<Committed>)

  const INITIAL := State(EMPTY_TABLES, None, map[], map[], [])

  datatype Step =
    | Start(id: TransactionId, work: Work)
    | AcquireLock(id: TransactionId)
    | Run(id: TransactionId, candidate: AgentId, clock: int)  // one statement; the inputs it may draw
    | CommitNow(id: TransactionId, inTime: bool)
    | Abort(id: TransactionId)                                // an SQL error or the deadline

  predicate Enabled(s: State, step: Step) {
    match step
    case Start(id, _) => id !in s.running && id !in s.outcomes
    case AcquireLock(id) => id in s.running && s.running[id].next == LockMetadataRow && s.lock == None
    case Run(id, _, _) =>
      id in s.running && s.running[id].next != LockMetadataRow && !s.running[id].next.Commit?
    case CommitNow(id, _) => id in s.running && s.running[id].next.Commit?
    case Abort(id) => id in s.running
  }

  function Write1(tx: Transaction, w: Write, next: Next): Transaction {
    tx.(writes := tx.writes + [w], next := next)
  }

  /** The effect of one statement on the transaction that runs it. */
  function RunStatement(t: Tables, tx: Transaction, candidate: AgentId, clock: int): Transaction {
    var view := View(t, tx.writes);
    match tx.work
    case RegisterWork(call) => (
      match tx.next
      case SelectOperation => (
        match FindOperation(view.operations, call.key, call.operationId)
        case Some(row) =>
          var same := SameBytes(row.requestBytes, call.requestBytes);
          tx.(next := Commit(RegisterReply(if same then row.result else IdempotencyConflict)))
        case None => tx.(next := CountKey))
      case CountKey =>
        tx.(next := if KeyUsed(view.agents, call.key) then InsertOperation(KeyAlreadyRegistered) else CountName)
      case CountName =>
        tx.(next := if NameUsed(view.agents, call.name) then InsertOperation(NameTaken) else CountCandidate)
      case CountCandidate =>
        if |tx.drawn| >= AGENT_ID_MINT_ATTEMPTS then tx.(next := Fail)
        else
          var drew := tx.(drawn := tx.drawn + [candidate], issuedAt := clock);
          if IdUsed(view.agents, candidate) then drew
          else
            var row := AgentRowFor(call, candidate, clock);
            Write1(drew, AgentInserted(row), InsertOperation(Registered(row.card)))
      case InsertOperation(result) =>
        var row := OperationRow(call.key, call.operationId, call.requestBytes, result);
        Write1(tx, OperationInserted(row), Commit(RegisterReply(result)))
      case _ => tx)
    case ClaimWork(capacity, nonce, expires, now) => (
      match tx.next
      case DeleteExpired => Write1(tx, ExpiredDeleted(now), CountNonce)
      case CountNonce =>
        tx.(next := if Find(view.nonces, nonce).Some? then Commit(ClaimReply(Replayed)) else CountNonces)
      case CountNonces =>
        tx.(next := if |view.nonces| >= capacity then Commit(ClaimReply(Full)) else InsertNonce)
      case InsertNonce => Write1(tx, NonceInserted(nonce, expires), Commit(ClaimReply(Claimed)))
      case _ => tx)
  }

  function FirstStatement(work: Work): Next {
    if work.RegisterWork? then SelectOperation else DeleteExpired
  }

  function Unlocked(s: State, id: TransactionId): Option<TransactionId> {
    if s.lock == Some(id) then None else s.lock
  }

  function Apply(s: State, step: Step): State
    requires Enabled(s, step)
  {
    match step
    case Start(id, work) =>
      s.(running := s.running[id := Transaction(work, LockMetadataRow, [], [], 0)])
    case AcquireLock(id) =>
      var tx := s.running[id];
      s.(lock := Some(id), running := s.running[id := tx.(next := FirstStatement(tx.work))])
    case Run(id, candidate, clock) =>
      var tx := RunStatement(s.tables, s.running[id], candidate, clock);
      if tx.next == Fail then
        s.(lock := Unlocked(s, id), running := s.running - {id}, outcomes := s.outcomes[id := InternalServerError])
      else
        s.(running := s.running[id := tx])
    case CommitNow(id, inTime) =>
      var tx := s.running[id];
      State(View(s.tables, tx.writes), Unlocked(s, id), s.running - {id},
            s.outcomes[id := if inTime then Answered(tx.next.reply) else Unavailable],
            s.history + [Committed(id, tx.work, tx.drawn, tx.issuedAt, tx.next.reply)])
    case Abort(id) =>
      s.(lock := Unlocked(s, id), running := s.running - {id}, outcomes := s.outcomes[id := Unavailable])
  }

  function After(s: State, steps: seq<Step>): Option<State>
    decreases |steps|
  {
    if steps == [] then Some(s)
    else if Enabled(s, steps[0]) then After(Apply(s, steps[0]), steps[1..])
    else None
  }

  // ------------------------------------------------------------ serial order

  /** The work done alone on `t`, with the candidates and clock it drew. */
  function Alone(t: Tables, work: Work, drawn: seq<AgentId>, issuedAt: int): Option<(Reply, Tables)> {
    match work
    case RegisterWork(call) => (
      match RegisterAlone(t, call, drawn, issuedAt)
      case Some((result, after)) => Some((RegisterReply(result), after))
      case None => None)
    case ClaimWork(capacity, nonce, expires, now) =>
      var (claim, after) := ClaimAlone(t, capacity, nonce, expires, now);
      Some((ClaimReply(claim), after))
  }

  /** Replays a history one transaction after another; `None` if some reply would differ. */
  function Serial(history: seq<Committed>): Option<Tables> {
    if history == [] then Some(EMPTY_TABLES)
    else
      var last := history[|history| - 1];
      match Serial(history[..|history| - 1])
      case None => None
      case Some(t) =>
        match Alone(t, last.work, last.drawn, last.issuedAt)
        case None => None
        case Some((reply, after)) => if reply == last.reply then Some(after) else None
  }

  lemma SerialSnoc(history: seq<Committed>, last: Committed)
    ensures Serial(history + [last]) ==
      match Serial(history)
      case None => None
      case Some(t) =>
        match Alone(t, last.work, last.drawn, last.issuedAt)
        case None => None
        case Some((reply, after)) => if reply == last.reply then Some(after) else None
  {
    assert (history + [last])[..|history + [last]| - 1] == history;
  }

  // -------------------------------------------------------------- invariant

  /** What the statements run so far established about the locked tables. */
  ghost predicate Progress(t: Tables, tx: Transaction) {
    match tx.work
    case RegisterWork(call) => (
      var unrecorded := FindOperation(t.operations, call.key, call.operationId) == None;
      match tx.next
      case SelectOperation => tx.writes == [] && tx.drawn == []
      case CountKey => tx.writes == [] && tx.drawn == [] && unrecorded
      case CountName => tx.writes == [] && tx.drawn == [] && unrecorded && !KeyUsed(t.agents, call.key)
      case CountCandidate =>
        && tx.writes == [] && unrecorded && !KeyUsed(t.agents, call.key) && !NameUsed(t.agents, call.name)
        && FirstUnused(t.agents, tx.drawn) == None
        && |tx.drawn| <= AGENT_ID_MINT_ATTEMPTS
      case InsertOperation(result) =>
        && RegisterAlone(t, call, tx.drawn, tx.issuedAt) == Some((result, Recorded(View(t, tx.writes), call, result)))
        && |tx.drawn| <= AGENT_ID_MINT_ATTEMPTS
      case Commit(reply) =>
        && Alone(t, tx.work, tx.drawn, tx.issuedAt) == Some((reply, View(t, tx.writes)))
        && |tx.drawn| <= AGENT_ID_MINT_ATTEMPTS
      case _ => false)
    case ClaimWork(capacity, nonce, expires, now) => (
      var live := t.(nonces := Unexpired(t.nonces, now));
      tx.drawn == [] &&
      match tx.next
      case DeleteExpired => tx.writes == []
      case CountNonce => View(t, tx.writes) == live
      case CountNonces => View(t, tx.writes) == live && Find(live.nonces, nonce) == None
      case InsertNonce => View(t, tx.writes) == live && Find(live.nonces, nonce) == None && |live.nonces| < capacity
      case Commit(reply) => Alone(t, tx.work, tx.drawn, tx.issuedAt) == Some((reply, View(t, tx.writes)))
      case _ => false)
  }

  /** A transaction past its lock statement holds the lock; one before it has done nothing. */
  ghost predicate TransactionInv(s: State, id: TransactionId) {
    id in s.running ==>
      var tx := s.running[id];
      if tx.next == LockMetadataRow then tx.writes == [] && tx.drawn == []
      else s.lock == Some(id) && Progress(s.tables, tx)
  }

  ghost predicate OutcomeInv(s: State, id: TransactionId) {
    && (id in s.running ==> id !in s.outcomes)
    && (id in s.outcomes && s.outcomes[id].Answered? ==>
          exists i :: 0 <= i < |s.history| && s.history[i].id == id && s.history[i].reply == s.outcomes[id].reply)
    && (id in s.outcomes && s.outcomes[id].InternalServerError? ==>
          forall i :: 0 <= i < |s.history| ==> s.history[i].id != id)
  }

  ghost predicate HistoryInv(s: State) {
    Serial(s.history) == Some(s.tables) && EntriesInv(s.history, s.outcomes.Keys)
  }

  /** Each committed transaction has ended, committed once and drew at most eight candidates. */
  ghost predicate EntriesInv(history: seq<Committed>, ended: set<TransactionId>) {
    && (forall i :: 0 <= i < |history| ==> history[i].id in ended && |history[i].drawn| <= AGENT_ID_MINT_ATTEMPTS)
    && (forall i, j :: 0 <= i < j < |history| ==> history[i].id != history[j].id)
  }

  lemma EntriesSnoc(history: seq<Committed>, ended: set<TransactionId>, last: Committed)
    requires EntriesInv(history, ended) && last.id !in ended && |last.drawn| <= AGENT_ID_MINT_ATTEMPTS
    ensures EntriesInv(history + [last], ended + {last.id})
  {
  }

  ghost predicate Inv(s: State) {
    && HistoryInv(s)
    && (s.lock.Some? ==> s.lock.value in s.running && s.running[s.lock.value].next != LockMetadataRow)
    && (forall id :: TransactionInv(s, id))
    && (forall id :: OutcomeInv(s, id))
  }

  /** A register transaction alone, once its last candidate is the first unused one. */
  lemma RegisterWithCandidate(t: Tables, call: RegisterCall, drawn: seq<AgentId>, candidate: AgentId, clock: int)
    requires FindOperation(t.operations, call.key, call.operationId) == None
    requires !KeyUsed(t.agents, call.key) && !NameUsed(t.agents, call.name)
    requires FirstUnused(t.agents, drawn) == None && !IdUsed(t.agents, candidate)
    ensures var row := AgentRowFor(call, candidate, clock);
      RegisterAlone(t, call, drawn + [candidate], clock) ==
        Some((Registered(row.card), Recorded(t.(agents := t.agents + [row]), call, Registered(row.card))))
  {
    FirstUnusedSnoc(t.agents, drawn, candidate);
  }

  /** A candidate that is in use is passed over. */
  lemma PassOver(t: Tables, tx: Transaction, candidate: AgentId, clock: int)
    requires tx.work.RegisterWork? && tx.next == CountCandidate && Progress(t, tx)
    requires |tx.drawn| < AGENT_ID_MINT_ATTEMPTS && IdUsed(t.agents, candidate)
    ensures var after := RunStatement(t, tx, candidate, clock); after.next == CountCandidate && Progress(t, after)
  {
    assert View(t, tx.writes) == t;
    FirstUnusedSnoc(t.agents, tx.drawn, candidate);
  }

  /** A candidate that is not in use becomes the new agent's id. */
  lemma TakeCandidate(t: Tables, tx: Transaction, candidate: AgentId, clock: int)
    requires tx.work.RegisterWork? && tx.next == CountCandidate && Progress(t, tx)
    requires |tx.drawn| < AGENT_ID_MINT_ATTEMPTS && !IdUsed(t.agents, candidate)
    ensures var after := RunStatement(t, tx, candidate, clock); after.next.InsertOperation? && Progress(t, after)
  {
    var call := tx.work.call;
    var row := AgentRowFor(call, candidate, clock);
    assert View(t, tx.writes) == t;
    ViewSnoc(t, tx.writes, AgentInserted(row));
    RegisterWithCandidate(t, call, tx.drawn, candidate, clock);
  }

  lemma DrawKeepsProgress(t: Tables, tx: Transaction, candidate: AgentId, clock: int)
    requires tx.work.RegisterWork? && tx.next == CountCandidate && Progress(t, tx)
    ensures var after := RunStatement(t, tx, candidate, clock);
      after.next == Fail || (after.next != LockMetadataRow && Progress(t, after))
  {
    if |tx.drawn| < AGENT_ID_MINT_ATTEMPTS {
      if IdUsed(t.agents, candidate) {
        PassOver(t, tx, candidate, clock);
      } else {
        TakeCandidate(t, tx, candidate, clock);
      }
    }
  }

  lemma RecordKeepsProgress(t: Tables, tx: Transaction, candidate: AgentId, clock: int)
    requires tx.work.RegisterWork? && tx.next.InsertOperation? && Progress(t, tx)
    ensures var after := RunStatement(t, tx, candidate, clock); after.next.Commit? && Progress(t, after)
  {
    var call, result := tx.work.call, tx.next.result;
    ViewSnoc(t, tx.writes, OperationInserted(OperationRow(call.key, call.operationId, call.requestBytes, result)));
  }

  lemma RegisterStatementKeepsProgress(t: Tables, tx: Transaction, candidate: AgentId, clock: int)
    requires tx.work.RegisterWork? && tx.next != LockMetadataRow && !tx.next.Commit? && Progress(t, tx)
    ensures var after := RunStatement(t, tx, candidate, clock);
      after.next == Fail || (after.next != LockMetadataRow && Progress(t, after))
  {
    if tx.next == CountCandidate {
      DrawKeepsProgress(t, tx, candidate, clock);
    } else if tx.next.InsertOperation? {
      RecordKeepsProgress(t, tx, candidate, clock);
    } else {
      assert View(t, tx.writes) == t;
    }
  }

  lemma ClaimStatementKeepsProgress(t: Tables, tx: Transaction, candidate: AgentId, clock: int)
    requires tx.work.ClaimWork? && tx.next != LockMetadataRow && !tx.next.Commit? && Progress(t, tx)
    ensures var after := RunStatement(t, tx, candidate, clock);
      after.next != Fail && after.next != LockMetadataRow && Progress(t, after)
  {
    match tx.next {
      case DeleteExpired => ViewSnoc(t, tx.writes, ExpiredDeleted(tx.work.now));
      case InsertNonce => ViewSnoc(t, tx.writes, NonceInserted(tx.work.nonce, tx.work.expires));
      case _ =>
    }
  }

  lemma RunKeepsInv(s: State, id: TransactionId, candidate: AgentId, clock: int)
    requires Inv(s) && Enabled(s, Run(id, candidate, clock))
    ensures Inv(Apply(s, Run(id, candidate, clock)))
  {
    assert TransactionInv(s, id) && OutcomeInv(s, id);
    if s.running[id].work.RegisterWork? {
      RegisterStatementKeepsProgress(s.tables, s.running[id], candidate, clock);
    } else {
      ClaimStatementKeepsProgress(s.tables, s.running[id], candidate, clock);
    }
    var t := Apply(s, Run(id, candidate, clock));
    forall other ensures TransactionInv(t, other) && OutcomeInv(t, other) {
      assert TransactionInv(s, other) && OutcomeInv(s, other);
    }
  }

  lemma CommitKeepsHistory(s: State, id: TransactionId, inTime: bool)
    requires Inv(s) && Enabled(s, CommitNow(id, inTime))
    ensures HistoryInv(Apply(s, CommitNow(id, inTime)))
  {
    var tx := s.running[id];
    var entry := Committed(id, tx.work, tx.drawn, tx.issuedAt, tx.next.reply);
    assert TransactionInv(s, id) && OutcomeInv(s, id);
    SerialSnoc(s.history, entry);
    EntriesSnoc(s.history, s.outcomes.Keys, entry);
    assert Apply(s, CommitNow(id, inTime)).outcomes.Keys == s.outcomes.Keys + {id};
  }

  lemma CommitKeepsOutcomes(s: State, id: TransactionId, inTime: bool, other: TransactionId)
    requires Inv(s) && Enabled(s, CommitNow(id, inTime))
    ensures OutcomeInv(Apply(s, CommitNow(id, inTime)), other)
  {
    var t := Apply(s, CommitNow(id, inTime));
    assert OutcomeInv(s, other) && OutcomeInv(s, id);
    if other == id {
      var last := t.history[|s.history|];
      assert last.id == id && last.reply == s.running[id].next.reply;
    } else if other in s.outcomes && s.outcomes[other].Answered? {
      var i :| 0 <= i < |s.history| && s.history[i].id == other && s.history[i].reply == s.outcomes[other].reply;
      assert t.history[i] == s.history[i];
    }
  }

  lemma CommitKeepsInv(s: State, id: TransactionId, inTime: bool)
    requires Inv(s) && Enabled(s, CommitNow(id, inTime))
    ensures Inv(Apply(s, CommitNow(id, inTime)))
  {
    var t := Apply(s, CommitNow(id, inTime));
    CommitKeepsHistory(s, id, inTime);
    assert TransactionInv(s, id);
    forall other ensures TransactionInv(t, other) && OutcomeInv(t, other) {
      assert TransactionInv(s, other);
      CommitKeepsOutcomes(s, id, inTime, other);
    }
  }

  lemma StepKeepsInv(s: State, step: Step)
    requires Inv(s) && Enabled(s, step)
    ensures Inv(Apply(s, step))
  {
    match step {
      case Run(id, candidate, clock) => RunKeepsInv(s, id, candidate, clock);
      case CommitNow(id, inTime) => CommitKeepsInv(s, id, inTime);
      case _ =>
        var t := Apply(s, step);
        assert TransactionInv(s, step.id) && OutcomeInv(s, step.id);
        forall other ensures TransactionInv(t, other) && OutcomeInv(t, other) {
          assert TransactionInv(s, other) && OutcomeInv(s, other);
        }
    }
  }

  lemma {:induction false} RunsKeepInv(s: State, steps: seq<Step>)
    requires Inv(s) && After(s, steps).Some?
    ensures Inv(After(s, steps).value)
    decreases |steps|
  {
    if steps != [] {
      StepKeepsInv(s, steps[0]);
      RunsKeepInv(Apply(s, steps[0]), steps[1..]);
    }
  }

  // ------------------------------------------------------------ main results

  ghost predicate Reachable(s: State) {
    exists steps :: After(INITIAL, steps) == Some(s)
  }

  lemma ReachableInv(s: State)
    requires Reachable(s)
    ensures Inv(s)
  {
    var steps :| After(INITIAL, steps) == Some(s);
    RunsKeepInv(INITIAL, steps);
  }

  /**
   * Serialisability: in every reachable state the tables are those of running the committed
   * transactions one after another in commit order, each with the reply it gave; every answered
   * call is one of them, and each transaction commits at most once.
   */
  lemma Serialisable(s: State)
    requires Reachable(s)
    ensures Serial(s.history) == Some(s.tables)
    ensures forall i, j :: 0 <= i < j < |s.history| ==> s.history[i].id != s.history[j].id
    ensures forall id :: id in s.outcomes && s.outcomes[id].Answered? ==>
      exists i :: 0 <= i < |s.history| && s.history[i].id == id && s.history[i].reply == s.outcomes[id].reply
    ensures forall id :: id in s.outcomes && s.outcomes[id] == InternalServerError ==>
      forall i :: 0 <= i < |s.history| ==> s.history[i].id != id
  {
    ReachableInv(s);
    forall id | id in s.outcomes && s.outcomes[id].Answered?
      ensures exists i :: 0 <= i < |s.history| && s.history[i].id == id && s.history[i].reply == s.outcomes[id].reply
    {
      assert OutcomeInv(s, id);
    }
    forall id | id in s.outcomes && s.outcomes[id] == InternalServerError
      ensures forall i :: 0 <= i < |s.history| ==> s.history[i].id != id
    {
      assert OutcomeInv(s, id);
    }
  }

  /** At most one transaction is between its lock and its end. */
  lemma LockExcludes(s: State, id: TransactionId, other: TransactionId)
    requires Reachable(s) && id in s.running && other in s.running
    requires s.running[id].next != LockMetadataRow && s.running[other].next != LockMetadataRow
    ensures id == other
  {
    ReachableInv(s);
    assert TransactionInv(s, id) && TransactionInv(s, other);
  }

  lemma {:induction false} SerialTablesConsistent(history: seq<Committed>)
    requires Serial(history).Some?
    ensures Consistent(Serial(history).value)
  {
    if history != [] {
      var before, last := history[..|history| - 1], history[|history| - 1];
      SerialTablesConsistent(before);
      var t := Serial(before).value;
      match last.work {
        case RegisterWork(call) => RegisterKeepsConsistent(t, call, last.drawn, last.issuedAt);
        case ClaimWork(capacity, nonce, expires, now) => SqlClaimEqualsMemoryClaim(t, capacity, nonce, expires, now);
      }
    }
  }

  /** Key, name, AgentId, (key, operationId) and nonce stay unique without any table constraint. */
  lemma ReachableTablesAreConsistent(s: State)
    requires Reachable(s)
    ensures Consistent(s.tables)
  {
    ReachableInv(s);
    SerialTablesConsistent(s.history);
  }

  // ----- agents are only added

  lemma {:induction false} ViewKeepsAgents(t: Tables, writes: seq<Write>)
    ensures t.agents <= View(t, writes).agents
  {
    if writes != [] { ViewKeepsAgents(t, writes[..|writes| - 1]); }
  }

  /** No step removes or changes an agent's row. */
  lemma StepKeepsAgents(s: State, step: Step)
    requires Enabled(s, step)
    ensures s.tables.agents <= Apply(s, step).tables.agents
  {
    match step {
      case CommitNow(id, _) => ViewKeepsAgents(s.tables, s.running[id].writes);
      case _ =>
    }
  }

  lemma {:induction false} RunsKeepAgents(s: State, steps: seq<Step>)
    requires After(s, steps).Some?
    ensures s.tables.agents <= After(s, steps).value.tables.agents
    decreases |steps|
  {
    if steps != [] {
      StepKeepsAgents(s, steps[0]);
      RunsKeepAgents(Apply(s, steps[0]), steps[1..]);
    }
  }

  lemma {:induction false} RunsCompose(s: State, steps: seq<Step>, more: seq<Step>)
    requires After(s, steps).Some?
    ensures After(s, steps + more) == After(After(s, steps).value, more)
    decreases |steps|
  {
    if steps == [] {
      assert steps + more == more;
    } else {
      assert (steps + more)[1..] == steps[1..] + more;
      RunsCompose(Apply(s, steps[0]), steps[1..], more);
    }
  }

  /** Where a run leads from a reachable state is reachable. */
  lemma RunsReach(s: State, steps: seq<Step>)
    requires Reachable(s) && After(s, steps).Some?
    ensures Reachable(After(s, steps).value)
  {
    var before :| After(INITIAL, before) == Some(s);
    RunsCompose(INITIAL, before, steps);
  }

  // ----- at most once

  /** A register call whose (key, operationId) was already recorded when it ran. */
  predicate IsRepeat(t: Tables, work: Work) {
    work.RegisterWork? && FindOperation(t.operations, work.call.key, work.call.operationId).Some?
  }

  /** The history without its repeated register calls. */
  function Essential(history: seq<Committed>): seq<Committed> {
    if history == [] then []
    else
      var before, last := history[..|history| - 1], history[|history| - 1];
      match Serial(before)
      case None => []
      case Some(t) => Essential(before) + (if IsRepeat(t, last.work) then [] else [last])
  }

  /**
   * Registration is at most once: deleting every repeated call from a history leaves the final
   * tables and every other reply as they were.
   */
  lemma {:induction false} RepeatsAreErasable(history: seq<Committed>)
    requires Serial(history).Some?
    ensures Serial(Essential(history)) == Serial(history)
  {
    if history != [] {
      var before, last := history[..|history| - 1], history[|history| - 1];
      RepeatsAreErasable(before);
      var t := Serial(before).value;
      if IsRepeat(t, last.work) {
        var call := last.work.call;
        RecordedResultDecides(t, call, last.drawn, last.issuedAt,
                              FindOperation(t.operations, call.key, call.operationId).value);
        assert Essential(history) == Essential(before);
      } else {
        SerialSnoc(Essential(before), last);
      }
    }
  }

  lemma {:induction false} SerialPrefix(history: seq<Committed>, n: nat)
    requires n < |history| && Serial(history).Some?
    ensures Serial(history[..n]).Some?
    ensures var t := Serial(history[..n]).value;
      Alone(t, history[n].work, history[n].drawn, history[n].issuedAt).Some?
      && Serial(history[..n + 1]) == Some(Alone(t, history[n].work, history[n].drawn, history[n].issuedAt).value.1)
      && Alone(t, history[n].work, history[n].drawn, history[n].issuedAt).value.0 == history[n].reply
    decreases |history|
  {
    var before := history[..|history| - 1];
    if n < |before| {
      SerialPrefix(before, n);
      assert before[..n] == history[..n] && before[..n + 1] == history[..n + 1] && before[n] == history[n];
    } else {
      assert history[..n + 1] == history;
    }
  }

  lemma WorkKeepsRecorded(t: Tables, work: Work, drawn: seq<AgentId>, issuedAt: int, key: string, operationId: string)
    requires FindOperation(t.operations, key, operationId).Some? && Alone(t, work, drawn, issuedAt).Some?
    ensures FindOperation(Alone(t, work, drawn, issuedAt).value.1.operations, key, operationId)
      == FindOperation(t.operations, key, operationId)
  {
    if work.RegisterWork? { RecordedResultIsPermanent(t, work.call, drawn, issuedAt, key, operationId); }
  }

  lemma {:induction false} RecordedStays(history: seq<Committed>, i: nat, row: OperationRow)
    requires i <= |history| && Serial(history).Some? && Serial(history[..i]).Some?
    requires FindOperation(Serial(history[..i]).value.operations, row.key, row.operationId) == Some(row)
    ensures FindOperation(Serial(history).value.operations, row.key, row.operationId) == Some(row)
  {
    if i < |history| {
      var before, last := history[..|history| - 1], history[|history| - 1];
      assert before[..i] == history[..i];
      RecordedStays(before, i, row);
      WorkKeepsRecorded(Serial(before).value, last.work, last.drawn, last.issuedAt, row.key, row.operationId);
    } else {
      assert history[..i] == history;
    }
  }

  /** A first call leaves its reply recorded. */
  lemma FirstReplyIsRecorded(history: seq<Committed>, i: nat, call: RegisterCall, row: OperationRow)
    requires i < |history| && Serial(history).Some? && history[i].work == RegisterWork(call)
    requires var before := Serial(history[..i]); before.Some? && !IsRepeat(before.value, RegisterWork(call))
    requires history[i].reply.RegisterReply? ==>
      row == OperationRow(call.key, call.operationId, call.requestBytes, history[i].reply.result)
    ensures history[i].reply.RegisterReply? && Serial(history[..i + 1]).Some?
    ensures FindOperation(Serial(history[..i + 1]).value.operations, row.key, row.operationId) == Some(row)
  {
    SerialPrefix(history, i);
    FirstCallRecordsItsResult(Serial(history[..i]).value, call, history[i].drawn, history[i].issuedAt);
  }

  /**
   * The first reply for a (key, operationId) is the reply for good: in every reachable state, a
   * later call there with equal bytes got exactly it, and one with different bytes got a conflict.
   */
  lemma FirstReplyIsPermanent(s: State, i: nat, j: nat, a: RegisterCall, b: RegisterCall)
    requires Reachable(s) && i < j < |s.history|
    requires s.history[i].work == RegisterWork(a) && s.history[j].work == RegisterWork(b)
    requires a.key == b.key && a.operationId == b.operationId
    requires var before := Serial(s.history[..i]); before.Some? && !IsRepeat(before.value, RegisterWork(a))
    ensures s.history[j].reply ==
      if a.requestBytes == b.requestBytes then s.history[i].reply else RegisterReply(IdempotencyConflict)
  {
    ReachableInv(s);
    SerialPrefix(s.history, i);
    var row := OperationRow(a.key, a.operationId, a.requestBytes, s.history[i].reply.result);
    FirstReplyIsRecorded(s.history, i, a, row);
    SerialPrefix(s.history, j);
    assert s.history[..j][..i + 1] == s.history[..i + 1];
    RecordedStays(s.history[..j], i + 1, row);
    RecordedResultDecides(Serial(s.history[..j]).value, b, s.history[j].drawn, s.history[j].issuedAt, row);
  }
}

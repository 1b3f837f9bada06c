/** What committed histories mean for nonces and for lookups. */
module RegistryHistories {
  import opened Wrappers
  import opened InsertionMaps
  import Memory = NonceClaims
  import opened RegistryTables
  import opened RegistryTransactions

  // Interleaved claim transactions answer as the in-memory claims of packages/identity would in commit
  // order, and what a caller was told is registered is found from then on.

  // ----------------------------------------------------------------- claims

  /** A claim as the in-memory map sees it, which does not use when the signature was created. */
  function RequestOf(work: Work): Memory.Request
    requires work.ClaimWork?
  {
    Memory.Request(work.nonce, work.expires, work.expires, work.now)
  }

  /** The claims of a history, in commit order. */
  function Claims(history: seq<Committed>): seq<Memory.Request> {
    if history == [] then []
    else
      var work := history[|history| - 1].work;
      Claims(history[..|history| - 1]) + if work.ClaimWork? then [RequestOf(work)] else []
  }

  /** The place among the claims of the transaction committed at `i`. */
  function ClaimPlace(history: seq<Committed>, i: nat): nat
    requires i <= |history|
  {
    |Claims(history[..i])|
  }

  ghost predicate OneCapacity(history: seq<Committed>, capacity: nat) {
    forall i :: 0 <= i < |history| && history[i].work.ClaimWork? ==> history[i].work.capacity == capacity
  }

  lemma {:induction false} ClaimsOfPrefix(history: seq<Committed>, i: nat)
    requires i <= |history|
    ensures Claims(history[..i]) <= Claims(history)
  {
    if i < |history| {
      assert history[..|history| - 1][..i] == history[..i];
      ClaimsOfPrefix(history[..|history| - 1], i);
    } else {
      assert history[..i] == history;
    }
  }

  lemma ClaimAtPlace(history: seq<Committed>, i: nat)
    requires i < |history| && history[i].work.ClaimWork?
    ensures var k := ClaimPlace(history, i);
      && k < ClaimPlace(history, i + 1) <= |Claims(history)|
      && Claims(history)[k] == RequestOf(history[i].work) && Claims(history)[..k] == Claims(history[..i])
  {
    assert history[..i + 1][..i] == history[..i];
    ClaimsOfPrefix(history, i + 1);
  }

  lemma PlacesAscend(history: seq<Committed>, i: nat, j: nat)
    requires i <= j <= |history|
    ensures ClaimPlace(history, i) <= ClaimPlace(history, j)
  {
    assert history[..j][..i] == history[..i];
    ClaimsOfPrefix(history[..j], i);
  }

  lemma RegisterKeepsNonces(t: Tables, call: RegisterCall, random: seq<AgentId>, issuedAt: int)
    ensures var done := RegisterAlone(t, call, random, issuedAt); done.Some? ==> done.value.1.nonces == t.nonces
  {
  }

  lemma {:induction false} NoncesOfHistory(history: seq<Committed>, capacity: nat)
    requires Serial(history).Some? && OneCapacity(history, capacity)
    ensures AsMap(Serial(history).value.nonces) == Memory.After(Claims(history), capacity)
  {
    if history != [] {
      var before, last := history[..|history| - 1], history[|history| - 1];
      var t := Serial(before).value;
      NoncesOfHistory(before, capacity);
      match last.work {
        case RegisterWork(call) =>
          RegisterKeepsNonces(t, call, last.drawn, last.issuedAt);
          assert Claims(history) == Claims(before);
        case ClaimWork(_, nonce, expires, now) =>
          SerialTablesConsistent(before);
          SqlClaimEqualsMemoryClaim(t, capacity, nonce, expires, now);
          assert Claims(history)[..|Claims(before)|] == Claims(before);
      }
    }
  }

  /** In every reachable state each committed claim has the answer the in-memory map gives in commit order. */
  lemma ClaimsAnswerAsInMemory(s: State, capacity: nat, i: nat)
    requires Reachable(s) && OneCapacity(s.history, capacity) && i < |s.history| && s.history[i].work.ClaimWork?
    ensures ClaimPlace(s.history, i) < |Claims(s.history)|
    ensures s.history[i].reply == ClaimReply(Memory.Answer(Claims(s.history), capacity, ClaimPlace(s.history, i)))
    ensures AsMap(s.tables.nonces) == Memory.After(Claims(s.history), capacity)
  {
    ReachableInv(s);
    NoncesOfHistory(s.history, capacity);
    var before, work := s.history[..i], s.history[i].work;
    SerialPrefix(s.history, i);
    NoncesOfHistory(before, capacity);
    SerialTablesConsistent(before);
    SqlClaimEqualsMemoryClaim(Serial(before).value, capacity, work.nonce, work.expires, work.now);
    ClaimAtPlace(s.history, i);
  }

  /** So across interleaved transactions too, a nonce claimed at `i` is refused until it expires. */
  lemma NonceCommittedOnce(s: State, capacity: nat, i: nat, j: nat)
    requires Reachable(s) && OneCapacity(s.history, capacity) && Memory.InClockOrder(Claims(s.history))
    requires i < j < |s.history| && s.history[i].work.ClaimWork? && s.history[j].work.ClaimWork?
    requires s.history[i].reply == ClaimReply(Memory.Claimed)
    requires s.history[j].work.nonce == s.history[i].work.nonce
    requires s.history[j].work.now <= s.history[i].work.expires
    ensures s.history[j].reply == ClaimReply(Memory.Replayed)
  {
    ClaimsAnswerAsInMemory(s, capacity, i);
    ClaimsAnswerAsInMemory(s, capacity, j);
    ClaimAtPlace(s.history, i);
    ClaimAtPlace(s.history, j);
    PlacesAscend(s.history, i + 1, j);
    Memory.NeverClaimedTwice(Claims(s.history), capacity, ClaimPlace(s.history, i), ClaimPlace(s.history, j));
  }

  // ---------------------------------------------------------------- lookups

  ghost predicate HasCard(rows: seq<AgentRow>, card: Card) {
    exists i :: 0 <= i < |rows| && rows[i].card == card
  }

  lemma CardsStay(rows: seq<AgentRow>, more: seq<AgentRow>, card: Card)
    requires HasCard(rows, card) && rows <= more
    ensures HasCard(more, card)
  {
    var i :| 0 <= i < |rows| && rows[i].card == card;
    assert more[i].card == card;
  }

  /** A result that says a card was registered is backed by its row. */
  ghost predicate Backed(rows: seq<AgentRow>, result: RegisterResult) {
    result.Registered? ==> HasCard(rows, result.card)
  }

  ghost predicate AllBacked(t: Tables) {
    forall i :: 0 <= i < |t.operations| ==> Backed(t.agents, t.operations[i].result)
  }

  lemma {:induction false} FoundIsBacked(rows: seq<OperationRow>, agents: seq<AgentRow>, key: string,
                                         operationId: string)
    requires forall i :: 0 <= i < |rows| ==> Backed(agents, rows[i].result)
    requires FindOperation(rows, key, operationId).Some?
    ensures Backed(agents, FindOperation(rows, key, operationId).value.result)
  {
    if !(rows[0].key == key && rows[0].operationId == operationId) {
      FoundIsBacked(rows[1..], agents, key, operationId);
    }
  }

  lemma RegisterIsBacked(t: Tables, call: RegisterCall, random: seq<AgentId>, issuedAt: int)
    requires AllBacked(t) && RegisterAlone(t, call, random, issuedAt).Some?
    ensures var (result, after) := RegisterAlone(t, call, random, issuedAt).value;
      AllBacked(after) && Backed(after.agents, result) && t.agents <= after.agents
  {
    var (result, after) := RegisterAlone(t, call, random, issuedAt).value;
    if FindOperation(t.operations, call.key, call.operationId).Some? {
      FoundIsBacked(t.operations, t.agents, call.key, call.operationId);
    } else {
      if result.Registered? { assert after.agents[|t.agents|].card == result.card; }
      forall i | 0 <= i < |t.operations| ensures Backed(after.agents, t.operations[i].result) {
        if t.operations[i].result.Registered? { CardsStay(t.agents, after.agents, t.operations[i].result.card); }
      }
    }
  }

  ghost predicate ReplyBacked(rows: seq<AgentRow>, reply: Reply) {
    reply.RegisterReply? ==> Backed(rows, reply.result)
  }

  lemma {:induction false} HistoryIsBacked(history: seq<Committed>, i: nat)
    requires Serial(history).Some?
    ensures AllBacked(Serial(history).value)
    ensures i < |history| ==> ReplyBacked(Serial(history).value.agents, history[i].reply)
  {
    if history != [] {
      var before, last := history[..|history| - 1], history[|history| - 1];
      HistoryIsBacked(before, i);
      var t, after := Serial(before).value, Serial(history).value;
      if last.work.RegisterWork? { RegisterIsBacked(t, last.work.call, last.drawn, last.issuedAt); }
      assert t.agents <= after.agents;
      if i < |before| && history[i].reply.RegisterReply? && history[i].reply.result.Registered? {
        CardsStay(t.agents, after.agents, history[i].reply.result.card);
      }
    }
  }

  // ---------------------------------------------------------------- replies

  /** One of the first `n` replies told its caller that the card was registered. */
  ghost predicate Told(history: seq<Committed>, n: nat, card: Card)
    requires n <= |history|
  {
    exists j :: 0 <= j < n && history[j].reply == RegisterReply(Registered(card))
  }

  /** One of the first `n` calls had this key and operation. */
  ghost predicate Called(history: seq<Committed>, n: nat, key: string, operationId: string)
    requires n <= |history|
  {
    exists j :: 0 <= j < n && IsCallOf(history[j].work, key, operationId)
  }

  predicate IsCallOf(work: Work, key: string, operationId: string) {
    work.RegisterWork? && work.call.key == key && work.call.operationId == operationId
  }

  /** The rows are those of the cards that callers were told of. */
  lemma {:induction false} RowsWereTold(history: seq<Committed>, card: Card)
    requires Serial(history).Some? && HasCard(Serial(history).value.agents, card)
    ensures Told(history, |history|, card)
  {
    var before, last := history[..|history| - 1], history[|history| - 1];
    var t := Serial(before).value;
    if HasCard(t.agents, card) {
      RowsWereTold(before, card);
      var j :| 0 <= j < |before| && before[j].reply == RegisterReply(Registered(card));
      assert history[j] == before[j];
    } else {
      var call := last.work.call;
      assert FindOperation(t.operations, call.key, call.operationId) == None;
      RegistrationDecided(t, call, last.drawn, last.issuedAt);
      NewCard(t.agents, Serial(history).value.agents, card);
    }
  }

  lemma NewCard(rows: seq<AgentRow>, more: seq<AgentRow>, card: Card)
    requires HasCard(more, card) && !HasCard(rows, card)
    requires more == rows || (|more| == |rows| + 1 && rows <= more)
    ensures |more| == |rows| + 1 && more[|rows|].card == card
  {
    assert forall i :: 0 <= i < |rows| ==> more[i] == rows[i] && rows[i].card != card;
    var i :| 0 <= i < |more| && more[i].card == card;
  }

  lemma {:induction false} CallsAreRecorded(history: seq<Committed>, key: string, operationId: string)
    requires Serial(history).Some?
    ensures FindOperation(Serial(history).value.operations, key, operationId).Some? <==>
      Called(history, |history|, key, operationId)
  {
    if history != [] {
      var before, last := history[..|history| - 1], history[|history| - 1];
      var t := Serial(before).value;
      CallsAreRecorded(before, key, operationId);
      assert Called(history, |history|, key, operationId) <==>
        Called(before, |before|, key, operationId) || IsCallOf(last.work, key, operationId) by
      {
        CalledSnoc(before, last, key, operationId);
        assert before + [last] == history;
      }
      if last.work.RegisterWork? { RecordedAfterCall(t, last.work.call, last.drawn, last.issuedAt, key, operationId); }
    }
  }

  lemma CalledSnoc(before: seq<Committed>, last: Committed, key: string, operationId: string)
    ensures Called(before + [last], |before| + 1, key, operationId) <==>
      Called(before, |before|, key, operationId) || IsCallOf(last.work, key, operationId)
  {
    var history := before + [last];
    forall j | 0 <= j < |before| ensures history[j] == before[j] {}
    if IsCallOf(last.work, key, operationId) { assert IsCallOf(history[|before|].work, key, operationId); }
    if Called(before, |before|, key, operationId) {
      var j :| 0 <= j < |before| && IsCallOf(before[j].work, key, operationId);
      assert IsCallOf(history[j].work, key, operationId);
    }
  }

  lemma RecordedAfterCall(t: Tables, call: RegisterCall, random: seq<AgentId>, issuedAt: int, key: string,
                          operationId: string)
    requires RegisterAlone(t, call, random, issuedAt).Some?
    ensures FindOperation(RegisterAlone(t, call, random, issuedAt).value.1.operations, key, operationId).Some? <==>
      FindOperation(t.operations, key, operationId).Some? || (call.key == key && call.operationId == operationId)
  {
    if FindOperation(t.operations, call.key, call.operationId) == None {
      RegistrationDecided(t, call, random, issuedAt);
      var result := RegisterAlone(t, call, random, issuedAt).value.0;
      FindOperationSnoc(t.operations, OperationRow(call.key, call.operationId, call.requestBytes, result), key,
                        operationId);
    }
  }

  /** A row's key, name and id are those of a card some caller was told of, and the other way round. */
  lemma RowsAreTold(history: seq<Committed>, i: nat)
    requires i <= |history| && Serial(history[..i]).Some?
    ensures var rows := Serial(history[..i]).value.agents;
      && (forall key :: HasKey(rows, key) <==> exists card :: Told(history, i, card) && card.key == key)
      && (forall name :: HasName(rows, name) <==> exists card :: Told(history, i, card) && card.name == name)
      && (forall id :: HasId(rows, id) <==> exists card :: Told(history, i, card) && card.agentId == id)
  {
    var rows := Serial(history[..i]).value.agents;
    SerialTablesConsistent(history[..i]);
    forall card ensures HasCard(rows, card) <==> Told(history, i, card) {
      TellsOfPrefix(history, i, card);
      if HasCard(rows, card) { RowsWereTold(history[..i], card); }
      if Told(history, i, card) {
        var j :| 0 <= j < i && history[..i][j].reply == RegisterReply(Registered(card));
        HistoryIsBacked(history[..i], j);
      }
    }
    forall k | 0 <= k < |rows| ensures Told(history, i, rows[k].card) {
      assert HasCard(rows, rows[k].card);
    }
  }

  lemma TellsOfPrefix(history: seq<Committed>, i: nat, card: Card)
    requires i <= |history|
    ensures Told(history[..i], i, card) <==> Told(history, i, card)
  {
    forall j | 0 <= j < i ensures history[..i][j] == history[j] {}
  }

  /**
   * What callers are answered, from the calls and answers alone, in every interleaving: the first call of
   * an operation is refused for a key, and then for a name, that an earlier caller was given, and is
   * otherwise given a card of its own data with an AgentId it drew and nobody had.
   */
  lemma RepliesAreDecided(s: State, i: nat, call: RegisterCall)
    requires Reachable(s) && i < |s.history| && s.history[i].work == RegisterWork(call)
    requires !Called(s.history, i, call.key, call.operationId)
    ensures s.history[i].reply.RegisterReply?
    ensures var result := s.history[i].reply.result;
      var keyKnown := exists card :: Told(s.history, i, card) && card.key == call.key;
      var nameKnown := exists card :: Told(s.history, i, card) && card.name == call.name;
      && (result == KeyAlreadyRegistered <==> keyKnown)
      && (result == NameTaken <==> !keyKnown && nameKnown)
      && (result.Registered? <==> !keyKnown && !nameKnown)
    ensures var result := s.history[i].reply.result;
      result.Registered? ==>
        && result.card == Card(result.card.agentId, call.principal, call.name, call.key, s.history[i].issuedAt)
        && result.card.agentId in s.history[i].drawn
        && forall card :: Told(s.history, i, card) ==> card.agentId != result.card.agentId
  {
    ReachableInv(s);
    SerialPrefix(s.history, i);
    var t := Serial(s.history[..i]).value;
    CallsAreRecorded(s.history[..i], call.key, call.operationId);
    assert Called(s.history[..i], i, call.key, call.operationId) ==>
      Called(s.history, i, call.key, call.operationId) by {
      forall j | 0 <= j < i ensures s.history[..i][j] == s.history[j] {}
    }
    RegistrationDecided(t, call, s.history[i].drawn, s.history[i].issuedAt);
    RowsAreTold(s.history, i);
  }

  lemma CardIsFound(t: Tables, card: Card)
    requires Consistent(t) && HasCard(t.agents, card)
    ensures Lookup(t.agents, ByAgentId(card.agentId)) == Found(card)
    ensures Lookup(t.agents, ByAgentName(card.name)) == Found(card)
  {
    var i :| 0 <= i < |t.agents| && t.agents[i].card == card;
    OneRowFound(t.agents, ByAgentId(card.agentId), i);
    OneRowFound(t.agents, ByAgentName(card.name), i);
  }

  /**
   * What a caller was told is registered is found, by AgentId and by name, with exactly that card, in
   * every state any further transactions lead to.
   */
  lemma RegisteredIsFound(s: State, id: TransactionId, card: Card, steps: seq<Step>)
    requires Reachable(s) && After(s, steps).Some?
    requires id in s.outcomes && s.outcomes[id] == Answered(RegisterReply(Registered(card)))
    ensures var later := After(s, steps).value.tables.agents;
      Lookup(later, ByAgentId(card.agentId)) == Found(card) && Lookup(later, ByAgentName(card.name)) == Found(card)
  {
    ReachableInv(s);
    assert OutcomeInv(s, id);
    var i :| 0 <= i < |s.history| && s.history[i].id == id && s.history[i].reply == s.outcomes[id].reply;
    HistoryIsBacked(s.history, i);
    var later := After(s, steps).value;
    RunsKeepAgents(s, steps);
    CardsStay(s.tables.agents, later.tables.agents, card);
    RunsReach(s, steps);
    ReachableTablesAreConsistent(later);
    CardIsFound(later.tables, card);
  }

  /** No lookup meets two rows, in any state of any interleaving. */
  lemma LookupsAreUnambiguous(s: State, request: LookupRequest)
    requires Reachable(s)
    ensures Lookup(s.tables.agents, request) != Ambiguous
  {
    ReachableTablesAreConsistent(s);
    LookupIsUnambiguous(s.tables, request);
  }
}

/** The Registry tables of packages/registry/src/storage.ts. */
module RegistryTables {
  import opened Wrappers
  import opened InsertionMaps
  import opened ByteStrings
  import opened NonceClaims

  // What one transaction does to the tables when it runs alone. No table constraint is modelled: a table
  // is a sequence of rows.

  type AgentId = seq<int>  // the decoded bytes

  const AGENT_ID_MINT_ATTEMPTS := 8

  datatype Card = Card(agentId: AgentId, principal: string, name: string, key: string, issuedAt: int)

  datatype RegisterResult = Registered(card: Card) | KeyAlreadyRegistered | NameTaken | IdempotencyConflict

  datatype AgentRow = AgentRow(agentId: AgentId, principal: string, name: string, key: string, card: Card)

  datatype OperationRow = OperationRow(key: string, operationId: string, requestBytes: Bytes, result: RegisterResult)

  datatype Tables = Tables(agents: seq<AgentRow>, operations: seq<OperationRow>, nonces: seq<(Nonce, int)>)

  const EMPTY_TABLES := Tables([], [], [])

  /** One register call; `key` stands for the key's thumbprint. */
  datatype RegisterCall = RegisterCall(
    key: string, operationId: string, principal: string, name: string, requestBytes: Bytes)

  // ------------------------------------------------------------ statements

  function FindOperation(rows: seq<OperationRow>, key: string, operationId: string): Option<OperationRow> {
    if rows == [] then None
    else if rows[0].key == key && rows[0].operationId == operationId then Some(rows[0])
    else FindOperation(rows[1..], key, operationId)
  }

  predicate KeyUsed(rows: seq<AgentRow>, key: string) {
    exists i :: 0 <= i < |rows| && rows[i].key == key
  }

  predicate NameUsed(rows: seq<AgentRow>, name: string) {
    exists i :: 0 <= i < |rows| && rows[i].name == name
  }

  predicate IdUsed(rows: seq<AgentRow>, agentId: AgentId) {
    exists i :: 0 <= i < |rows| && rows[i].agentId == agentId
  }

  /** The first candidate no row uses. */
  function FirstUnused(rows: seq<AgentRow>, candidates: seq<AgentId>): Option<AgentId> {
    if candidates == [] then None
    else if !IdUsed(rows, candidates[0]) then Some(candidates[0])
    else FirstUnused(rows, candidates[1..])
  }

  lemma {:induction false} FirstUnusedFacts(rows: seq<AgentRow>, candidates: seq<AgentId>)
    ensures match FirstUnused(rows, candidates)
      case Some(id) => !IdUsed(rows, id) && id in candidates
      case None => forall i :: 0 <= i < |candidates| ==> IdUsed(rows, candidates[i])
  {
    if candidates != [] { FirstUnusedFacts(rows, candidates[1..]); }
  }

  lemma {:induction false} FirstUnusedSnoc(rows: seq<AgentRow>, tried: seq<AgentId>, candidate: AgentId)
    requires FirstUnused(rows, tried) == None
    ensures FirstUnused(rows, tried + [candidate]) == if IdUsed(rows, candidate) then None else Some(candidate)
  {
    if tried != [] {
      assert (tried + [candidate])[1..] == tried[1..] + [candidate];
      FirstUnusedSnoc(rows, tried[1..], candidate);
    }
  }

  /** `mintUnusedAgentId`: `random[k]` is the identifier the k-th attempt draws. */
  method MintUnusedAgentId(rows: seq<AgentRow>, random: seq<AgentId>) returns (minted: Option<AgentId>)
    requires |random| == AGENT_ID_MINT_ATTEMPTS
    ensures minted == FirstUnused(rows, random)
    ensures minted.Some? ==> !IdUsed(rows, minted.value)
    ensures minted.None? <==> forall i :: 0 <= i < 8 ==> IdUsed(rows, random[i])
  {
    FirstUnusedFacts(rows, random);
    for attempt := 0 to AGENT_ID_MINT_ATTEMPTS
      invariant FirstUnused(rows, random) == FirstUnused(rows, random[attempt..])
    {
      var candidate := random[attempt];
      if !IdUsed(rows, candidate) {
        return Some(candidate);
      }
    }
    return None;
  }

  // ---------------------------------------------- one transaction on its own

  function AgentRowFor(call: RegisterCall, agentId: AgentId, issuedAt: int): AgentRow {
    AgentRow(agentId, call.principal, call.name, call.key, Card(agentId, call.principal, call.name, call.key, issuedAt))
  }

  function Recorded(t: Tables, call: RegisterCall, result: RegisterResult): Tables {
    t.(operations := t.operations + [OperationRow(call.key, call.operationId, call.requestBytes, result)])
  }

  /** `registerTransaction`; `None` when no unused identifier was drawn, which aborts it. */
  function RegisterAlone(t: Tables, call: RegisterCall, random: seq<AgentId>, issuedAt: int)
    : Option<(RegisterResult, Tables)> {
    match FindOperation(t.operations, call.key, call.operationId)
    case Some(row) =>
      Some((if SameBytes(row.requestBytes, call.requestBytes) then row.result else IdempotencyConflict, t))
    case None =>
      if KeyUsed(t.agents, call.key) then
        Some((KeyAlreadyRegistered, Recorded(t, call, KeyAlreadyRegistered)))
      else if NameUsed(t.agents, call.name) then
        Some((NameTaken, Recorded(t, call, NameTaken)))
      else
        match FirstUnused(t.agents, random)
        case None => None
        case Some(agentId) =>
          var row := AgentRowFor(call, agentId, issuedAt);
          Some((Registered(row.card), Recorded(t.(agents := t.agents + [row]), call, Registered(row.card))))
  }

  /** `DELETE FROM nonces WHERE expires_at < now`. */
  function Unexpired(rows: seq<(Nonce, int)>, now: int): seq<(Nonce, int)> {
    if rows == [] then []
    else if rows[0].1 < now then Unexpired(rows[1..], now)
    else [rows[0]] + Unexpired(rows[1..], now)
  }

  /** `claimNonceTransaction`. */
  function ClaimAlone(t: Tables, capacity: nat, nonce: Nonce, expires: int, now: int): (Claim, Tables) {
    var live := Unexpired(t.nonces, now);
    if Find(live, nonce).Some? then (Replayed, t.(nonces := live))
    else if |live| >= capacity then (Full, t.(nonces := live))
    else (Claimed, t.(nonces := live + [(nonce, expires)]))
  }

  lemma {:induction false} UnexpiredFacts(rows: seq<(Nonce, int)>, now: int)
    requires Distinct(rows)
    ensures Distinct(Unexpired(rows, now))
    ensures forall n :: Find(Unexpired(rows, now), n) == Retained(rows, n, now)
  {
    if rows != [] {
      UnexpiredFacts(rows[1..], now);
      var rest := Unexpired(rows[1..], now);
      assert rows[0].1 >= now ==> Unexpired(rows, now)[1..] == rest;
      assert Find(rest, rows[0].0) == Retained(rows[1..], rows[0].0, now);
      forall n ensures Find(Unexpired(rows, now), n) == Retained(rows, n, now) {
        assert Find(rest, n) == Retained(rows[1..], n, now);
      }
    }
  }

  /** The SQL transaction gives the answer of the in-memory claim and leaves the same nonces. */
  lemma SqlClaimEqualsMemoryClaim(t: Tables, capacity: nat, nonce: Nonce, expires: int, now: int)
    requires Distinct(t.nonces)
    ensures var (claim, after) := ClaimAlone(t, capacity, nonce, expires, now);
      && (claim, AsMap(after.nonces)) == ClaimNonce(AsMap(t.nonces), capacity, nonce, expires, now)
      && Distinct(after.nonces)
  {
    var live := Unexpired(t.nonces, now);
    UnexpiredFacts(t.nonces, now);
    LiveEntries(t.nonces, live, now);
    AsMapFacts(live);
    if Find(live, nonce) == None {
      ClaimedEntries(live, nonce, expires);
      PutAfterDelete(live, nonce, expires);
    }
  }

  // ------------------------------------------------------------- uniqueness

  /** Key, name and AgentId each name at most one row. */
  ghost predicate AgentsUnique(rows: seq<AgentRow>) {
    forall i, j :: 0 <= i < j < |rows| ==>
      rows[i].key != rows[j].key && rows[i].name != rows[j].name && rows[i].agentId != rows[j].agentId
  }

  ghost predicate OperationsUnique(rows: seq<OperationRow>) {
    rows == [] || (FindOperation(rows[1..], rows[0].key, rows[0].operationId) == None && OperationsUnique(rows[1..]))
  }

  /** Each row holds the card issued for it. */
  ghost predicate CardsMatchRows(rows: seq<AgentRow>) {
    forall i :: 0 <= i < |rows| ==>
      && rows[i].card.agentId == rows[i].agentId && rows[i].card.name == rows[i].name
      && rows[i].card.key == rows[i].key && rows[i].card.principal == rows[i].principal
  }

  ghost predicate Consistent(t: Tables) {
    AgentsUnique(t.agents) && CardsMatchRows(t.agents) && OperationsUnique(t.operations) && Distinct(t.nonces)
  }

  lemma {:induction false} FindOperationSnoc(rows: seq<OperationRow>, row: OperationRow, key: string,
                                             operationId: string)
    ensures FindOperation(rows + [row], key, operationId) ==
      if FindOperation(rows, key, operationId).Some? then FindOperation(rows, key, operationId)
      else if row.key == key && row.operationId == operationId then Some(row) else None
  {
    if rows == [] {
      assert rows + [row] == [row];
    } else {
      assert (rows + [row])[1..] == rows[1..] + [row];
      FindOperationSnoc(rows[1..], row, key, operationId);
    }
  }

  lemma {:induction false} OperationsUniqueSnoc(rows: seq<OperationRow>, row: OperationRow)
    requires OperationsUnique(rows) && FindOperation(rows, row.key, row.operationId) == None
    ensures OperationsUnique(rows + [row])
  {
    if rows != [] {
      assert (rows + [row])[1..] == rows[1..] + [row];
      OperationsUniqueSnoc(rows[1..], row);
      FindOperationSnoc(rows[1..], row, rows[0].key, rows[0].operationId);
    }
  }

  lemma RegisterKeepsConsistent(t: Tables, call: RegisterCall, random: seq<AgentId>, issuedAt: int)
    requires Consistent(t)
    ensures var done := RegisterAlone(t, call, random, issuedAt); done.Some? ==> Consistent(done.value.1)
  {
    var done := RegisterAlone(t, call, random, issuedAt);
    if FindOperation(t.operations, call.key, call.operationId) == None && done.Some? {
      OperationsUniqueSnoc(t.operations, OperationRow(call.key, call.operationId, call.requestBytes, done.value.0));
      FirstUnusedFacts(t.agents, random);
    }
  }

  // ----------------------------------------------------- what a call is answered

  ghost predicate HasKey(rows: seq<AgentRow>, key: string) {
    exists i :: 0 <= i < |rows| && rows[i].key == key
  }

  ghost predicate HasName(rows: seq<AgentRow>, name: string) {
    exists i :: 0 <= i < |rows| && rows[i].name == name
  }

  ghost predicate HasId(rows: seq<AgentRow>, agentId: AgentId) {
    exists i :: 0 <= i < |rows| && rows[i].agentId == agentId
  }

  /** The card and the row of a new agent: the call's own data, the clock read, and an id drawn and free. */
  ghost predicate IsIssued(row: AgentRow, rows: seq<AgentRow>, call: RegisterCall, random: seq<AgentId>,
                           issuedAt: int) {
    && row.principal == row.card.principal == call.principal
    && row.name == row.card.name == call.name
    && row.key == row.card.key == call.key
    && row.card.issuedAt == issuedAt
    && row.agentId == row.card.agentId
    && !HasId(rows, row.agentId)
    && exists k :: 0 <= k < |random| && random[k] == row.agentId && forall j :: 0 <= j < k ==> HasId(rows, random[j])
  }

  lemma {:induction false} FirstUnusedAt(rows: seq<AgentRow>, candidates: seq<AgentId>) returns (k: nat)
    ensures match FirstUnused(rows, candidates)
      case Some(id) => k < |candidates| && candidates[k] == id && !HasId(rows, id)
      case None => k == |candidates|
    ensures forall j :: 0 <= j < k ==> HasId(rows, candidates[j])
  {
    if candidates == [] || !IdUsed(rows, candidates[0]) {
      k := 0;
    } else {
      k := FirstUnusedAt(rows, candidates[1..]);
      forall j | 0 <= j < k + 1 ensures HasId(rows, candidates[j]) {
        if j > 0 { assert candidates[j] == candidates[1..][j - 1]; }
      }
      k := k + 1;
    }
  }

  /**
   * What a call without a recorded result is answered, from the rows and the call: its key is known, or
   * else its name is, or else it gets the one new row that is added; none when every drawn id is taken.
   */
  lemma RegistrationDecided(t: Tables, call: RegisterCall, random: seq<AgentId>, issuedAt: int)
    requires FindOperation(t.operations, call.key, call.operationId) == None
    ensures match RegisterAlone(t, call, random, issuedAt)
      case None =>
        !HasKey(t.agents, call.key) && !HasName(t.agents, call.name)
        && forall k :: 0 <= k < |random| ==> HasId(t.agents, random[k])
      case Some((result, after)) =>
        && (result == KeyAlreadyRegistered <==> HasKey(t.agents, call.key))
        && (result == NameTaken <==> !HasKey(t.agents, call.key) && HasName(t.agents, call.name))
        && (result.Registered? <==> !HasKey(t.agents, call.key) && !HasName(t.agents, call.name))
        && (result.Registered? ==>
              after.agents == t.agents + [after.agents[|after.agents| - 1]]
              && after.agents[|after.agents| - 1].card == result.card
              && IsIssued(after.agents[|after.agents| - 1], t.agents, call, random, issuedAt))
        && (!result.Registered? ==> after.agents == t.agents)
        && after.operations == t.operations + [OperationRow(call.key, call.operationId, call.requestBytes, result)]
        && after.nonces == t.nonces
  {
    var k := FirstUnusedAt(t.agents, random);
  }

  // ----------------------------------------------------------------- lookup

  datatype LookupRequest = ByAgentId(agentId: AgentId) | ByAgentName(name: string)

  datatype LookupResult = Found(card: Card) | NotFound | Ambiguous

  predicate IsAsked(row: AgentRow, request: LookupRequest) {
    match request
    case ByAgentId(agentId) => row.agentId == agentId
    case ByAgentName(name) => row.name == name
  }

  /** `findCardRows`. */
  function FindCardRows(rows: seq<AgentRow>, request: LookupRequest): seq<Card> {
    if rows == [] then []
    else (if IsAsked(rows[0], request) then [rows[0].card] else []) + FindCardRows(rows[1..], request)
  }

  function Lookup(rows: seq<AgentRow>, request: LookupRequest): LookupResult {
    var cards := FindCardRows(rows, request);
    if cards == [] then NotFound else if |cards| != 1 then Ambiguous else Found(cards[0])
  }

  lemma {:induction false} NoRowsFound(rows: seq<AgentRow>, request: LookupRequest)
    ensures FindCardRows(rows, request) == [] <==> forall i :: 0 <= i < |rows| ==> !IsAsked(rows[i], request)
  {
    if rows != [] {
      NoRowsFound(rows[1..], request);
      assert forall i :: 1 <= i < |rows| ==> rows[i] == rows[1..][i - 1];
    }
  }

  /** With unique rows, the rows found are the one asked for. */
  lemma {:induction false} OneRowFound(rows: seq<AgentRow>, request: LookupRequest, i: nat)
    requires AgentsUnique(rows) && i < |rows| && IsAsked(rows[i], request)
    ensures FindCardRows(rows, request) == [rows[i].card]
  {
    if i == 0 {
      NoRowsFound(rows[1..], request);
    } else {
      OneRowFound(rows[1..], request, i - 1);
    }
  }

  /** A lookup finds the one card that is asked for, or there is none; it never meets two. */
  lemma LookupIsUnambiguous(t: Tables, request: LookupRequest)
    requires Consistent(t)
    ensures match Lookup(t.agents, request)
      case Found(card) => IsAsked(AgentRow(card.agentId, card.principal, card.name, card.key, card), request)
        && exists i :: 0 <= i < |t.agents| && t.agents[i].card == card
      case NotFound => forall i :: 0 <= i < |t.agents| ==> !IsAsked(t.agents[i], request)
      case Ambiguous => false
  {
    NoRowsFound(t.agents, request);
    if i :| 0 <= i < |t.agents| && IsAsked(t.agents[i], request) { OneRowFound(t.agents, request, i); }
  }

  // ------------------------------------------------------------ idempotency

  /**
   * Once a result is recorded for (key, operationId), every later call there returns exactly it
   * for equal bytes and a conflict for different bytes, and writes nothing.
   */
  lemma RecordedResultDecides(t: Tables, call: RegisterCall, random: seq<AgentId>, issuedAt: int, row: OperationRow)
    requires FindOperation(t.operations, call.key, call.operationId) == Some(row)
    ensures RegisterAlone(t, call, random, issuedAt) ==
      Some((if row.requestBytes == call.requestBytes then row.result else IdempotencyConflict, t))
  {
    SameBytesIsEquality(row.requestBytes, call.requestBytes);
  }

  /** A call that decides records exactly what it returned, under its own bytes. */
  lemma FirstCallRecordsItsResult(t: Tables, call: RegisterCall, random: seq<AgentId>, issuedAt: int)
    requires FindOperation(t.operations, call.key, call.operationId) == None
    ensures match RegisterAlone(t, call, random, issuedAt)
      case None => true
      case Some((result, after)) =>
        && result != IdempotencyConflict
        && FindOperation(after.operations, call.key, call.operationId)
             == Some(OperationRow(call.key, call.operationId, call.requestBytes, result))
  {
    var done := RegisterAlone(t, call, random, issuedAt);
    if done.Some? {
      FindOperationSnoc(t.operations, OperationRow(call.key, call.operationId, call.requestBytes, done.value.0),
                        call.key, call.operationId);
    }
  }

  /** No transaction changes or removes a recorded result. */
  lemma RecordedResultIsPermanent(t: Tables, call: RegisterCall, random: seq<AgentId>, issuedAt: int,
                                  key: string, operationId: string)
    requires FindOperation(t.operations, key, operationId).Some?
    ensures var done := RegisterAlone(t, call, random, issuedAt);
      done.Some? ==>
        FindOperation(done.value.1.operations, key, operationId) == FindOperation(t.operations, key, operationId)
  {
    var done := RegisterAlone(t, call, random, issuedAt);
    if done.Some? {
      FindOperationSnoc(t.operations, OperationRow(call.key, call.operationId, call.requestBytes, done.value.0),
                        key, operationId);
    }
  }

  // ----------------------------------------------------- the database as an object

  /** The Registry database; each method runs one transaction's statements in order. */
  class Database {
    var tables: Tables

    constructor ()
      ensures tables == EMPTY_TABLES
    {
      tables := EMPTY_TABLES;
    }

    method RegisterTransaction(call: RegisterCall, random: seq<AgentId>, issuedAt: int)
      returns (answer: Option<RegisterResult>)
      requires |random| == AGENT_ID_MINT_ATTEMPTS
      modifies this
      ensures match RegisterAlone(old(tables), call, random, issuedAt)
        case None => answer == None && tables == old(tables)
        case Some((result, after)) => answer == Some(result) && tables == after
    {
      var previous := FindOperation(tables.operations, call.key, call.operationId);
      if previous.Some? {
        var same := SameBytes(previous.value.requestBytes, call.requestBytes);
        return Some(if same then previous.value.result else IdempotencyConflict);
      }
      var result: RegisterResult;
      if KeyUsed(tables.agents, call.key) {
        result := KeyAlreadyRegistered;
      } else if NameUsed(tables.agents, call.name) {
        result := NameTaken;
      } else {
        var minted := MintUnusedAgentId(tables.agents, random);
        if minted.None? {
          return None;
        }
        var row := AgentRowFor(call, minted.value, issuedAt);
        tables := tables.(agents := tables.agents + [row]);
        result := Registered(row.card);
      }
      tables := Recorded(tables, call, result);
      return Some(result);
    }

    method ClaimNonceTransaction(capacity: nat, nonce: Nonce, expires: int, now: int) returns (claim: Claim)
      modifies this
      ensures (claim, tables) == ClaimAlone(old(tables), capacity, nonce, expires, now)
    {
      tables := tables.(nonces := Unexpired(tables.nonces, now));
      if Find(tables.nonces, nonce).Some? {
        return Replayed;
      }
      if |tables.nonces| >= capacity {
        return Full;
      }
      tables := tables.(nonces := tables.nonces + [(nonce, expires)]);
      return Claimed;
    }
  }
}

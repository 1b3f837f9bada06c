/** The single-flight AgentCard resolver. */
module CardResolution {
  import opened Wrappers
  import opened Sequences
  import opened InsertionMaps
  import opened BoundedCaches

  // That of packages/identity/src/authenticated-http.ts. `CardResolver` holds the shared state the source
  // updates in place: the pending map and the card cache. The step system below it interleaves callers,
  // leading fibers, evictions and interruptions. One step is one stretch of the source between two yields.

  type AgentId = nat
  type DeferredId = nat
  type CallerId = nat

  /** A card as the Registry layer returned it; `verified` says this package verified it. */
  datatype Card = Card(agentId: AgentId, verified: bool, contents: int)

  datatype Error = AuthenticationFailed | Overloaded | Unavailable

  /** How a resolution ends: the `Exit` that completes its deferred. */
  datatype Exit = Success(card: Card) | Failure(error: Error) | Interrupted

  /** How `Registry.lookup` ends, including layers that misbehave. */
  datatype LookupEnd = Found(card: Card) | NotFound | ThrowsOnRead | LookupFails | LookupInterrupted

  datatype Access = Cached(card: Card) | Join(deferred: DeferredId) | Lead(deferred: DeferredId)

  ghost predicate Belongs(card: Card, agent: AgentId) {
    card.verified && card.agentId == agent
  }

  /** `lookupCard` after it got a permit, with `resolveLookupAttempt`. */
  function ResolveLookup(end: LookupEnd, agent: AgentId): (exit: Exit)
    ensures exit.Success? <==> end.Found? && Belongs(end.card, agent)
    ensures exit.Success? ==> exit.card == end.card
    ensures exit == Interrupted <==> end == LookupInterrupted
    ensures exit == Failure(Unavailable) <==> end == LookupFails
    ensures exit == Failure(AuthenticationFailed) <==>
      end == NotFound || end == ThrowsOnRead || (end.Found? && !Belongs(end.card, agent))
  {
    match end
    case LookupInterrupted => Interrupted
    case LookupFails => Failure(Unavailable)
    case Found(card) =>
      if card.verified && card.agentId == agent then Success(card) else Failure(AuthenticationFailed)
    case NotFound | ThrowsOnRead => Failure(AuthenticationFailed)
  }

  // ----------------------------------------------------------- shared state

  function Decide(pending: map<AgentId, DeferredId>, cards: seq<(AgentId, Card)>,
                  agent: AgentId, candidate: DeferredId): Access {
    match Find(cards, agent)
    case Some(card) => Cached(card)
    case None => if agent in pending then Join(pending[agent]) else Lead(candidate)
  }

  function PendingAfter(pending: map<AgentId, DeferredId>, agent: AgentId, access: Access)
    : map<AgentId, DeferredId> {
    if access.Lead? then pending[agent := access.deferred] else pending
  }

  class CardResolver {
    var pending: map<AgentId, DeferredId>
    const cards: BoundedCache<AgentId, Card>

    ghost predicate Valid()
      reads this, cards
    {
      cards.Valid()
    }

    constructor (cacheCapacity: nat)
      ensures Valid() && fresh(cards) && cards.capacity == cacheCapacity
      ensures pending == map[] && cards.entries == []
    {
      pending := map[];
      cards := new BoundedCache(cacheCapacity);
    }

    /** The cache read and the pending decision, in one atomic `Ref.modify`. */
    method BeginCardResolution(agent: AgentId, candidate: DeferredId) returns (access: Access)
      requires Valid()
      modifies this`pending, cards`entries
      ensures Valid()
      ensures access == Decide(old(pending), old(cards.entries), agent, candidate)
      ensures pending == PendingAfter(old(pending), agent, access)
      ensures cards.entries == AfterGet(old(cards.entries), agent)
    {
      var card := cards.Get(agent);
      if card.Some? {
        return Cached(card.value);
      }
      if agent in pending {
        return Join(pending[agent]);
      }
      pending := pending[agent := candidate];
      return Lead(candidate);
    }

    /** Deletes by key; `RemoveTakesOwnEntry` says the key still names the caller's deferred. */
    method RemovePendingResolution(agent: AgentId)
      requires Valid()
      modifies this`pending
      ensures Valid() && pending == old(pending) - {agent}
    {
      pending := map a | a in pending && a != agent :: pending[a];
    }

    method RetainResolvedCard(agent: AgentId, card: Card)
      requires Valid()
      modifies cards`entries
      ensures Valid() && cards.entries == AfterSet(old(cards.entries), cards.capacity, agent, card)
    {
      cards.Set(agent, card);
    }
  }

  // ------------------------------------------------------------ step system

  /** Where the fiber leading one resolution is. */
  datatype Phase =
    | Forking(caller: CallerId)  // decided to lead, `forkDaemon` not yet reached; uninterruptible
    | Started                    // before asking for a permit
    | LookingUp                  // holds a permit
    | Looked(card: Card)         // lookup succeeded, card not yet retained
    | Exiting(exit: Exit)        // in `onExit`, before the pending entry is removed
    | Removed(exit: Exit)        // before the deferred is completed
    | Finished(exit: Exit)

  datatype Leader = Leader(agent: AgentId, phase: Phase)

  /** A deferred handed to callers; `exit` is `None` until it is completed. */
  datatype Deferred = Deferred(agent: AgentId, exit: Option<Exit>)

  datatype Caller =
    | Leading(agent: AgentId, deferred: DeferredId)
    | Waiting(agent: AgentId, deferred: DeferredId)
    | Answered(agent: AgentId, exit: Exit, awaited: Option<DeferredId>)
    | CallerInterrupted

  datatype Settings = Settings(cacheCapacity: nat, lookupConcurrencyLimit: nat)

  datatype State = State(
    cards: seq<(AgentId, Card)>,
    pending: map<AgentId, DeferredId>,
    permits: nat,
    leaders: map<DeferredId, Leader>,
    deferreds: map<DeferredId, Deferred>,
    callers: map<CallerId, Caller>)

  function Initial(settings: Settings): State {
    State([], map[], settings.lookupConcurrencyLimit, map[], map[], map[])
  }

  datatype Step =
    | Call(caller: CallerId, agent: AgentId, candidate: DeferredId)
    | Fork(caller: CallerId)
    | AskPermit(deferred: DeferredId)
    | EndLookup(deferred: DeferredId, end: LookupEnd)
    | InterruptLeader(deferred: DeferredId)
    | Retain(deferred: DeferredId)
    | Remove(deferred: DeferredId)
    | Complete(deferred: DeferredId)
    | Resume(caller: CallerId)
    | InterruptCaller(caller: CallerId)

  /** The deferred whose leading fiber takes `step`. */
  function FiberStep(step: Step): Option<DeferredId> {
    match step
    case AskPermit(d) => Some(d)
    case EndLookup(d, _) => Some(d)
    case InterruptLeader(d) => Some(d)
    case Retain(d) => Some(d)
    case Remove(d) => Some(d)
    case Complete(d) => Some(d)
    case _ => None
  }

  predicate LedBy(s: State, c: CallerId) {
    c in s.callers && s.callers[c].Leading? && s.callers[c].deferred in s.leaders
    && s.leaders[s.callers[c].deferred].phase == Forking(c)
  }

  predicate CanEnd(phase: Phase) {
    phase.Started? || phase.LookingUp? || phase.Looked?
  }

  predicate Enabled(s: State, step: Step) {
    match step
    case Call(c, _, d) => c !in s.callers && d !in s.deferreds && d !in s.leaders
    case Fork(c) => LedBy(s, c)
    case AskPermit(d) => d in s.leaders && s.leaders[d].phase.Started?
    case EndLookup(d, _) => d in s.leaders && s.leaders[d].phase.LookingUp?
    case InterruptLeader(d) => d in s.leaders && CanEnd(s.leaders[d].phase)
    case Retain(d) => d in s.leaders && s.leaders[d].phase.Looked?
    case Remove(d) => d in s.leaders && s.leaders[d].phase.Exiting?
    case Complete(d) => d in s.leaders && s.leaders[d].phase.Removed? && d in s.deferreds
    case Resume(c) =>
      c in s.callers && s.callers[c].Waiting?
      && s.callers[c].deferred in s.deferreds && s.deferreds[s.callers[c].deferred].exit.Some?
    case InterruptCaller(c) => c in s.callers && s.callers[c].Waiting?
  }

  function MoveTo(s: State, d: DeferredId, phase: Phase): State
    requires d in s.leaders
  {
    s.(leaders := s.leaders[d := s.leaders[d].(phase := phase)])
  }

  function Release(s: State): State {
    s.(permits := s.permits + 1)
  }

  function Begin(s: State, c: CallerId, agent: AgentId, d: DeferredId): State {
    var access := Decide(s.pending, s.cards, agent, d);
    var begun := s.(cards := AfterGet(s.cards, agent), pending := PendingAfter(s.pending, agent, access));
    match access
    case Cached(card) => begun.(callers := s.callers[c := Answered(agent, Success(card), None)])
    case Join(joined) => begun.(callers := s.callers[c := Waiting(agent, joined)])
    case Lead(own) =>
      begun.(callers := s.callers[c := Leading(agent, own)],
             leaders := s.leaders[own := Leader(agent, Forking(c))],
             deferreds := s.deferreds[own := Deferred(agent, None)])
  }

  function Apply(settings: Settings, s: State, step: Step): State
    requires Enabled(s, step)
  {
    match step
    case Call(c, agent, d) => Begin(s, c, agent, d)
    case Fork(c) =>
      var caller := s.callers[c];
      MoveTo(s, caller.deferred, Started).(callers := s.callers[c := Waiting(caller.agent, caller.deferred)])
    case AskPermit(d) =>
      if s.permits > 0 then MoveTo(s, d, LookingUp).(permits := s.permits - 1)
      else MoveTo(s, d, Exiting(Failure(Overloaded)))
    case EndLookup(d, end) =>
      var exit := ResolveLookup(end, s.leaders[d].agent);
      MoveTo(Release(s), d, if exit.Success? then Looked(exit.card) else Exiting(exit))
    case InterruptLeader(d) =>
      MoveTo(if s.leaders[d].phase.LookingUp? then Release(s) else s, d, Exiting(Interrupted))
    case Retain(d) =>
      var leader := s.leaders[d];
      MoveTo(s, d, Exiting(Success(leader.phase.card)))
        .(cards := AfterSet(s.cards, settings.cacheCapacity, leader.agent, leader.phase.card))
    case Remove(d) =>
      MoveTo(s, d, Removed(s.leaders[d].phase.exit)).(pending := s.pending - {s.leaders[d].agent})
    case Complete(d) =>
      var exit := s.leaders[d].phase.exit;
      MoveTo(s, d, Finished(exit)).(deferreds := s.deferreds[d := s.deferreds[d].(exit := Some(exit))])
    case Resume(c) =>
      var caller := s.callers[c];
      var exit := s.deferreds[caller.deferred].exit.value;
      s.(callers := s.callers[c := Answered(caller.agent, exit, Some(caller.deferred))])
    case InterruptCaller(c) => s.(callers := s.callers[c := CallerInterrupted])
  }

  /** The state after `steps`, or `None` when one of them is not enabled. */
  function After(settings: Settings, s: State, steps: seq<Step>): Option<State>
    decreases |steps|
  {
    if steps == [] then Some(s)
    else if Enabled(s, steps[0]) then After(settings, Apply(settings, s, steps[0]), steps[1..])
    else None
  }

  // -------------------------------------------------------------- invariant

  function Lookups(s: State): set<DeferredId> {
    set d | d in s.leaders && s.leaders[d].phase.LookingUp?
  }

  /** A leader that has not yet removed its pending entry. */
  ghost predicate Unremoved(s: State, d: DeferredId) {
    d in s.leaders && !s.leaders[d].phase.Removed? && !s.leaders[d].phase.Finished?
  }

  /** The exit of the lookup that `phase` has behind it, if it has one. */
  function ExitOf(phase: Phase): Option<Exit> {
    match phase
    case Looked(card) => Some(Success(card))
    case Exiting(exit) => Some(exit)
    case Removed(exit) => Some(exit)
    case Finished(exit) => Some(exit)
    case _ => None
  }

  ghost predicate ExitBelongs(exit: Exit, agent: AgentId) {
    exit.Success? ==> Belongs(exit.card, agent)
  }

  ghost predicate LeaderInv(s: State, d: DeferredId) {
    d in s.leaders ==>
      var leader := s.leaders[d];
      && d in s.deferreds
      && s.deferreds[d] == Deferred(leader.agent, if leader.phase.Finished? then Some(leader.phase.exit) else None)
      && (Unremoved(s, d) ==> leader.agent in s.pending && s.pending[leader.agent] == d)
      && (ExitOf(leader.phase).Some? ==> ExitBelongs(ExitOf(leader.phase).value, leader.agent))
      && (leader.phase.Forking? ==>
            leader.phase.caller in s.callers && s.callers[leader.phase.caller] == Leading(leader.agent, d))
  }

  ghost predicate AgentInv(s: State, a: AgentId) {
    && (a in s.pending ==> Unremoved(s, s.pending[a]) && s.leaders[s.pending[a]].agent == a)
    && (Find(s.cards, a).Some? ==> Belongs(Find(s.cards, a).value, a))
  }

  ghost predicate CallerInv(s: State, c: CallerId) {
    c in s.callers ==>
      match s.callers[c]
      case Leading(a, d) => d in s.leaders && s.leaders[d] == Leader(a, Forking(c))
      case Waiting(a, d) => d in s.leaders && s.leaders[d].agent == a
      case Answered(a, exit, awaited) =>
        && ExitBelongs(exit, a)
        && (awaited.Some? ==> awaited.value in s.leaders && s.leaders[awaited.value] == Leader(a, Finished(exit)))
      case CallerInterrupted => true
  }

  ghost predicate Inv(settings: Settings, s: State) {
    && Distinct(s.cards) && |s.cards| <= settings.cacheCapacity
    && s.permits + |Lookups(s)| == settings.lookupConcurrencyLimit
    && s.leaders.Keys == s.deferreds.Keys
    && (forall d :: LeaderInv(s, d))
    && (forall a :: AgentInv(s, a))
    && (forall c :: CallerInv(s, c))
  }

  lemma CacheReadKeepsCards(cards: seq<(AgentId, Card)>, agent: AgentId)
    requires Distinct(cards)
    ensures Distinct(AfterGet(cards, agent)) && |AfterGet(cards, agent)| == |cards|
    ensures forall a :: Find(AfterGet(cards, agent), a) == Find(cards, a)
  {
    match Find(cards, agent) {
      case None =>
      case Some(card) =>
        TouchedFacts(cards, agent, card);
        forall a { FindTouched(cards, agent, card, a); }
    }
  }

  lemma CacheWriteKeepsCards(cards: seq<(AgentId, Card)>, capacity: nat, agent: AgentId, card: Card)
    requires Distinct(cards) && |cards| <= capacity
    ensures var after := AfterSet(cards, capacity, agent, card);
      && Distinct(after) && |after| <= capacity
      && forall a :: Find(after, a).Some? ==> Find(after, a) == if a == agent then Some(card) else Find(cards, a)
  {
    if capacity > 0 {
      forall a { SetThenFind(cards, capacity, agent, card, a); }
      SetThenFind(cards, capacity, agent, card, agent);
    }
  }

  lemma BeginKeepsLeaders(settings: Settings, s: State, c: CallerId, agent: AgentId, own: DeferredId, d: DeferredId)
    requires Inv(settings, s) && Enabled(s, Call(c, agent, own))
    ensures LeaderInv(Begin(s, c, agent, own), d)
  {
    assert LeaderInv(s, d);
    assert AgentInv(s, agent);
  }

  lemma FiberKeepsOwnLeader(settings: Settings, s: State, step: Step, d: DeferredId)
    requires Inv(settings, s) && Enabled(s, step) && FiberStep(step) == Some(d)
    ensures LeaderInv(Apply(settings, s, step), d)
  {
    assert LeaderInv(s, d);
  }

  lemma FiberKeepsOtherLeaders(settings: Settings, s: State, step: Step, own: DeferredId, d: DeferredId)
    requires Inv(settings, s) && Enabled(s, step) && FiberStep(step) == Some(own) && d != own
    ensures LeaderInv(Apply(settings, s, step), d)
  {
    assert LeaderInv(s, d) && LeaderInv(s, own);
  }

  lemma StepKeepsLeaders(settings: Settings, s: State, step: Step, d: DeferredId)
    requires Inv(settings, s) && Enabled(s, step)
    ensures LeaderInv(Apply(settings, s, step), d)
  {
    match FiberStep(step) {
      case Some(own) =>
        if d == own {
          FiberKeepsOwnLeader(settings, s, step, d);
        } else {
          FiberKeepsOtherLeaders(settings, s, step, own, d);
        }
      case None =>
        assert LeaderInv(s, d);
        match step {
          case Call(c, agent, own) => BeginKeepsLeaders(settings, s, c, agent, own, d);
          case Fork(c) => assert CallerInv(s, c);
          case _ =>
        }
    }
  }

  /** Cache traffic keeps the size bound and never lets a foreign or unverified card in. */
  lemma StepKeepsCards(settings: Settings, s: State, step: Step)
    requires Inv(settings, s) && Enabled(s, step)
    ensures var t := Apply(settings, s, step);
      && Distinct(t.cards) && |t.cards| <= settings.cacheCapacity
      && forall a :: Find(t.cards, a).Some? ==> Belongs(Find(t.cards, a).value, a)
  {
    forall a ensures Find(s.cards, a).Some? ==> Belongs(Find(s.cards, a).value, a) {
      assert AgentInv(s, a);
    }
    if step.Call? {
      CacheReadKeepsCards(s.cards, step.agent);
    } else if step.Retain? {
      var leader := s.leaders[step.deferred];
      assert LeaderInv(s, step.deferred);
      CacheWriteKeepsCards(s.cards, settings.cacheCapacity, leader.agent, leader.phase.card);
    }
  }

  lemma FiberKeepsAgents(settings: Settings, s: State, step: Step, d: DeferredId, a: AgentId)
    requires Inv(settings, s) && Enabled(s, step) && FiberStep(step) == Some(d)
    ensures AgentInv(Apply(settings, s, step), a)
  {
    StepKeepsCards(settings, s, step);
    assert AgentInv(s, a);
    if step.Remove? { assert LeaderInv(s, d); }
  }

  lemma StepKeepsAgents(settings: Settings, s: State, step: Step, a: AgentId)
    requires Inv(settings, s) && Enabled(s, step)
    ensures AgentInv(Apply(settings, s, step), a)
  {
    match FiberStep(step) {
      case Some(d) => FiberKeepsAgents(settings, s, step, d, a);
      case None =>
        StepKeepsCards(settings, s, step);
        assert AgentInv(s, a);
    }
  }

  lemma FiberKeepsCallers(settings: Settings, s: State, step: Step, d: DeferredId, c: CallerId)
    requires Inv(settings, s) && Enabled(s, step) && FiberStep(step) == Some(d)
    ensures CallerInv(Apply(settings, s, step), c)
  {
    assert CallerInv(s, c);
    assert Apply(settings, s, step).callers == s.callers;
  }

  lemma StepKeepsCallers(settings: Settings, s: State, step: Step, c: CallerId)
    requires Inv(settings, s) && Enabled(s, step)
    ensures CallerInv(Apply(settings, s, step), c)
  {
    match FiberStep(step) {
      case Some(d) => FiberKeepsCallers(settings, s, step, d, c);
      case None =>
        assert CallerInv(s, c);
        match step {
          case Call(own, agent, d) => assert AgentInv(s, agent);
          case Fork(own) => assert CallerInv(s, own);
          case Resume(own) =>
            assert CallerInv(s, own) && LeaderInv(s, s.callers[own].deferred);
          case _ =>
        }
    }
  }

  /** A phase change takes or gives back a permit exactly when it enters or leaves `LookingUp`. */
  lemma LookupsAfterMove(s: State, d: DeferredId, phase: Phase)
    requires d in s.leaders
    ensures |Lookups(MoveTo(s, d, phase))| ==
      |Lookups(s)| + (if phase.LookingUp? then 1 else 0) - (if s.leaders[d].phase.LookingUp? then 1 else 0)
  {
    var t := MoveTo(s, d, phase);
    assert d in Lookups(s) <==> s.leaders[d].phase.LookingUp?;
    if phase.LookingUp? {
      assert Lookups(t) == Lookups(s) + {d};
      SizeWith(Lookups(s), d);
    } else {
      assert Lookups(t) == Lookups(s) - {d};
      SizeWithout(Lookups(s), d);
    }
  }

  lemma SizeWith(ds: set<DeferredId>, d: DeferredId)
    ensures |ds + {d}| == |ds| + (if d in ds then 0 else 1)
  {
    if d in ds { assert ds + {d} == ds; }
  }

  lemma SizeWithout(ds: set<DeferredId>, d: DeferredId)
    ensures |ds - {d}| == |ds| - (if d in ds then 1 else 0)
  {
    if d !in ds { assert ds - {d} == ds; }
  }

  lemma FiberKeepsPermits(settings: Settings, s: State, step: Step, d: DeferredId)
    requires Inv(settings, s) && Enabled(s, step) && FiberStep(step) == Some(d)
    ensures var t := Apply(settings, s, step); t.permits + |Lookups(t)| == settings.lookupConcurrencyLimit
  {
    var t := Apply(settings, s, step);
    LookupsAfterMove(s, d, t.leaders[d].phase);
    assert t.leaders == MoveTo(s, d, t.leaders[d].phase).leaders;
    assert Lookups(t) == Lookups(MoveTo(s, d, t.leaders[d].phase));
  }

  lemma StepKeepsPermits(settings: Settings, s: State, step: Step)
    requires Inv(settings, s) && Enabled(s, step)
    ensures var t := Apply(settings, s, step); t.permits + |Lookups(t)| == settings.lookupConcurrencyLimit
  {
    match FiberStep(step) {
      case Some(d) => FiberKeepsPermits(settings, s, step, d);
      case None => assert Lookups(Apply(settings, s, step)) == Lookups(s);
    }
  }

  lemma StepKeepsInv(settings: Settings, s: State, step: Step)
    requires Inv(settings, s) && Enabled(s, step)
    ensures Inv(settings, Apply(settings, s, step))
  {
    StepKeepsCards(settings, s, step);
    StepKeepsPermits(settings, s, step);
    forall d { StepKeepsLeaders(settings, s, step, d); }
    forall a { StepKeepsAgents(settings, s, step, a); }
    forall c { StepKeepsCallers(settings, s, step, c); }
  }

  /** The invariant holds after every run. */
  lemma {:induction false} RunKeepsInv(settings: Settings, s: State, steps: seq<Step>)
    requires Inv(settings, s)
    ensures After(settings, s, steps).Some? ==> Inv(settings, After(settings, s, steps).value)
    decreases |steps|
  {
    if steps != [] && Enabled(s, steps[0]) {
      StepKeepsInv(settings, s, steps[0]);
      RunKeepsInv(settings, Apply(settings, s, steps[0]), steps[1..]);
    }
  }

  lemma InitialInv(settings: Settings)
    ensures Inv(settings, Initial(settings))
  {
    assert Lookups(Initial(settings)) == {};
  }

  // ---------------------------------------------------------- main results

  ghost predicate Reachable(settings: Settings, s: State) {
    exists steps :: After(settings, Initial(settings), steps) == Some(s)
  }

  /** Every state of every interleaving satisfies the invariant. */
  lemma ReachableInv(settings: Settings, s: State)
    requires Reachable(settings, s)
    ensures Inv(settings, s)
  {
    var steps :| After(settings, Initial(settings), steps) == Some(s);
    InitialInv(settings);
    RunKeepsInv(settings, Initial(settings), steps);
  }

  /**
   * Single flight: an agent has at most one leader between its `lead` decision and its removal,
   * the pending keys are exactly those leaders' agents, and lookups obey both bounds.
   */
  lemma SingleFlight(settings: Settings, s: State)
    requires Reachable(settings, s)
    ensures forall d, e :: Unremoved(s, d) && Unremoved(s, e) && s.leaders[d].agent == s.leaders[e].agent ==> d == e
    ensures forall a :: a in s.pending <==> exists d :: Unremoved(s, d) && s.leaders[d].agent == a
    ensures |Lookups(s)| <= settings.lookupConcurrencyLimit
    ensures forall d, e :: d in Lookups(s) && e in Lookups(s) && s.leaders[d].agent == s.leaders[e].agent ==> d == e
  {
    ReachableInv(settings, s);
    forall d, e | Unremoved(s, d) && Unremoved(s, e) && s.leaders[d].agent == s.leaders[e].agent ensures d == e {
      assert LeaderInv(s, d) && LeaderInv(s, e);
    }
    forall a ensures a in s.pending <==> exists d :: Unremoved(s, d) && s.leaders[d].agent == a {
      assert AgentInv(s, a);
      if d :| Unremoved(s, d) && s.leaders[d].agent == a {
        assert LeaderInv(s, d);
      }
    }
  }

  /** Deleting the pending entry by key deletes the leader's own entry and no other leader's. */
  lemma RemoveTakesOwnEntry(settings: Settings, s: State, d: DeferredId)
    requires Reachable(settings, s) && Enabled(s, Remove(d))
    ensures s.leaders[d].agent in s.pending && s.pending[s.leaders[d].agent] == d
    ensures forall e :: Unremoved(s, e) && e != d ==>
      var t := Apply(settings, s, Remove(d));
      Unremoved(t, e) && t.leaders[e].agent in t.pending && t.pending[t.leaders[e].agent] == e
  {
    ReachableInv(settings, s);
    assert LeaderInv(s, d);
    StepKeepsInv(settings, s, Remove(d));
    forall e | Unremoved(s, e) && e != d
      ensures var t := Apply(settings, s, Remove(d));
        Unremoved(t, e) && t.leaders[e].agent in t.pending && t.pending[t.leaders[e].agent] == e
    {
      assert LeaderInv(Apply(settings, s, Remove(d)), e);
    }
  }

  /**
   * A caller is never sent to a completed deferred, and never leads while another leader of the
   * same agent is unremoved: it joins that leader or reads its retained card.
   */
  lemma DecisionsAreCurrent(settings: Settings, s: State, agent: AgentId, candidate: DeferredId)
    requires Reachable(settings, s)
    ensures match Decide(s.pending, s.cards, agent, candidate)
      case Cached(card) => Belongs(card, agent)
      case Join(d) => d in s.deferreds && s.deferreds[d] == Deferred(agent, None) && Unremoved(s, d)
      case Lead(d) => d == candidate && forall e :: Unremoved(s, e) ==> s.leaders[e].agent != agent
  {
    ReachableInv(settings, s);
    assert AgentInv(s, agent);
    var access := Decide(s.pending, s.cards, agent, candidate);
    if access.Join? { assert LeaderInv(s, access.deferred); }
    forall e | Unremoved(s, e) && agent !in s.pending ensures s.leaders[e].agent != agent {
      assert LeaderInv(s, e);
    }
  }

  /** A resolution that answers with a card answers with a verified card of the asked agent. */
  lemma AnswersBelong(settings: Settings, s: State, c: CallerId)
    requires Reachable(settings, s) && c in s.callers && s.callers[c].Answered? && s.callers[c].exit.Success?
    ensures Belongs(s.callers[c].exit.card, s.callers[c].agent)
  {
    ReachableInv(settings, s);
    assert CallerInv(s, c);
  }

  /**
   * Every await is answered with the exit of the lookup that led its deferred, and the answer
   * never changes.
   */
  lemma AnsweredWithLeadersExit(settings: Settings, s: State, c: CallerId)
    requires Reachable(settings, s) && c in s.callers && s.callers[c].Answered? && s.callers[c].awaited.Some?
    ensures var d := s.callers[c].awaited.value;
      && d in s.deferreds && s.deferreds[d] == Deferred(s.callers[c].agent, Some(s.callers[c].exit))
      && d in s.leaders && ExitOf(s.leaders[d].phase) == Some(s.callers[c].exit)
  {
    ReachableInv(settings, s);
    assert CallerInv(s, c);
    assert LeaderInv(s, s.callers[c].awaited.value);
  }

  // ----- every waiter is answered

  /** Steps left to the fiber leading a deferred. */
  function Remaining(phase: Phase): nat {
    match phase
    case Forking(_) => 6
    case Started => 5
    case LookingUp => 4
    case Looked(_) => 3
    case Exiting(_) => 2
    case Removed(_) => 1
    case Finished(_) => 0
  }

  function FiberSteps(steps: seq<Step>, d: DeferredId): nat {
    if steps == [] then 0
    else (if FiberStep(steps[0]) == Some(d) then 1 else 0) + FiberSteps(steps[1..], d)
  }

  lemma OtherStepsKeepLeader(settings: Settings, s: State, step: Step, d: DeferredId)
    requires Inv(settings, s) && Enabled(s, step) && d in s.leaders && FiberStep(step) != Some(d)
    ensures var t := Apply(settings, s, step);
      d in t.leaders && (t.leaders[d] == s.leaders[d]
        || (s.leaders[d].phase.Forking? && t.leaders[d] == s.leaders[d].(phase := Started)))
  {
  }

  lemma OwnStepAdvances(settings: Settings, s: State, step: Step, d: DeferredId)
    requires Inv(settings, s) && Enabled(s, step) && FiberStep(step) == Some(d)
    ensures var t := Apply(settings, s, step);
      && d in t.leaders && t.leaders[d].agent == s.leaders[d].agent
      && Remaining(t.leaders[d].phase) < Remaining(s.leaders[d].phase)
      && (ExitOf(s.leaders[d].phase).Some? && step != InterruptLeader(d) ==>
            ExitOf(t.leaders[d].phase) == ExitOf(s.leaders[d].phase))
  {
  }

  /** No step of anyone else sets a leader back or changes an exit it already has. */
  lemma StepAdvances(settings: Settings, s: State, step: Step, d: DeferredId)
    requires Inv(settings, s) && Enabled(s, step) && d in s.leaders
    ensures var t := Apply(settings, s, step);
      && d in t.leaders && t.leaders[d].agent == s.leaders[d].agent
      && Remaining(t.leaders[d].phase) + (if FiberStep(step) == Some(d) then 1 else 0) <= Remaining(s.leaders[d].phase)
      && (ExitOf(s.leaders[d].phase).Some? && step != InterruptLeader(d) ==>
            ExitOf(t.leaders[d].phase) == ExitOf(s.leaders[d].phase))
  {
    if FiberStep(step) == Some(d) {
      OwnStepAdvances(settings, s, step, d);
    } else {
      OtherStepsKeepLeader(settings, s, step, d);
    }
  }

  /**
   * A measure on runs: each step of the leading fiber uses up one of its remaining steps, so a
   * deferred is completed after at most five of them, whatever else is interleaved.
   */
  lemma {:induction false} RunAdvances(settings: Settings, s: State, steps: seq<Step>, d: DeferredId)
    requires Inv(settings, s) && d in s.leaders && After(settings, s, steps).Some?
    ensures var t := After(settings, s, steps).value;
      && d in t.leaders && t.leaders[d].agent == s.leaders[d].agent
      && Remaining(t.leaders[d].phase) + FiberSteps(steps, d) <= Remaining(s.leaders[d].phase)
      && (s.leaders[d].phase.Finished? ==> t.leaders[d] == s.leaders[d])
    decreases |steps|
  {
    if steps != [] {
      StepAdvances(settings, s, steps[0], d);
      StepKeepsInv(settings, s, steps[0]);
      RunAdvances(settings, Apply(settings, s, steps[0]), steps[1..], d);
    }
  }

  function Completions(steps: seq<Step>, d: DeferredId): nat {
    if steps == [] then 0
    else (if steps[0] == Complete(d) then 1 else 0) + Completions(steps[1..], d)
  }

  /** A deferred is completed at most once, and its exit is final. */
  lemma {:induction false} CompletedAtMostOnce(settings: Settings, s: State, steps: seq<Step>, d: DeferredId)
    requires Inv(settings, s) && After(settings, s, steps).Some?
    ensures Completions(steps, d) <= if d in s.leaders && s.leaders[d].phase.Finished? then 0 else 1
    ensures d in s.deferreds && s.deferreds[d].exit.Some? ==>
      var t := After(settings, s, steps).value; d in t.deferreds && t.deferreds[d] == s.deferreds[d]
    decreases |steps|
  {
    if steps != [] {
      var t := Apply(settings, s, steps[0]);
      StepKeepsInv(settings, s, steps[0]);
      CompletedAtMostOnce(settings, t, steps[1..], d);
      assert LeaderInv(s, d) && LeaderInv(t, d);
      if d in s.leaders { StepAdvances(settings, s, steps[0], d); }
    }
  }

  /** The next step of the fiber leading `d`; it only ever waits for the Registry's answer. */
  function NextFiberStep(phase: Phase, d: DeferredId, end: LookupEnd): Step
    requires !phase.Finished?
  {
    match phase
    case Forking(c) => Fork(c)
    case Started => AskPermit(d)
    case LookingUp => EndLookup(d, end)
    case Looked(_) => Retain(d)
    case Exiting(_) => Remove(d)
    case Removed(_) => Complete(d)
  }

  lemma FiberCanStep(settings: Settings, s: State, d: DeferredId, end: LookupEnd)
    requires Inv(settings, s) && d in s.leaders && !s.leaders[d].phase.Finished?
    ensures var step := NextFiberStep(s.leaders[d].phase, d, end);
      Enabled(s, step) && d in Apply(settings, s, step).leaders
      && Remaining(Apply(settings, s, step).leaders[d].phase) < Remaining(s.leaders[d].phase)
  {
    assert LeaderInv(s, d);
  }

  lemma WaitersKeepWaiting(settings: Settings, s: State, c: CallerId, d: DeferredId, end: LookupEnd)
    requires Inv(settings, s) && c in s.callers && s.callers[c].Waiting?
    requires d in s.leaders && !s.leaders[d].phase.Finished?
    requires Enabled(s, NextFiberStep(s.leaders[d].phase, d, end))
    ensures var t := Apply(settings, s, NextFiberStep(s.leaders[d].phase, d, end));
      c in t.callers && t.callers[c] == s.callers[c]
  {
    assert LeaderInv(s, d);
  }

  /**
   * No waiter is lost: from every state, once the Registry answers (`end`), the steps of the
   * leading fiber alone lead to the caller's answer. The caller that led may be gone by then.
   */
  lemma {:induction false} WaiterIsAnswered(settings: Settings, s: State, c: CallerId, end: LookupEnd)
    returns (steps: seq<Step>)
    requires Inv(settings, s) && c in s.callers && s.callers[c].Waiting?
    ensures |steps| <= Remaining(s.leaders[s.callers[c].deferred].phase) + 1
    ensures var done := After(settings, s, steps);
      && done.Some? && c in done.value.callers && done.value.callers[c].Answered?
      && done.value.callers[c].agent == s.callers[c].agent
      && done.value.callers[c].awaited == Some(s.callers[c].deferred)
    decreases (assert CallerInv(s, c); Remaining(s.leaders[s.callers[c].deferred].phase))
  {
    assert CallerInv(s, c);
    var d := s.callers[c].deferred;
    assert LeaderInv(s, d);
    if s.leaders[d].phase.Finished? {
      steps := [Resume(c)];
      assert After(settings, Apply(settings, s, Resume(c)), steps[1..]).Some?;
    } else {
      var step := NextFiberStep(s.leaders[d].phase, d, end);
      FiberCanStep(settings, s, d, end);
      WaitersKeepWaiting(settings, s, c, d, end);
      StepKeepsInv(settings, s, step);
      var rest := WaiterIsAnswered(settings, Apply(settings, s, step), c, end);
      steps := [step] + rest;
      assert steps[1..] == rest;
    }
  }

  // ----- and every run comes to rest

  /** Steps of the program and of the Registry, as opposed to new calls and interruptions. */
  predicate IsProgress(step: Step) {
    !step.Call? && !step.InterruptLeader? && !step.InterruptCaller?
  }

  ghost predicate AtRest(s: State) {
    forall step | IsProgress(step) :: !Enabled(s, step)
  }

  lemma LeadersAtRest(settings: Settings, s: State, d: DeferredId)
    requires Inv(settings, s) && AtRest(s) && d in s.leaders
    ensures s.leaders[d].phase.Finished? && d in s.deferreds && s.deferreds[d].exit.Some?
  {
    assert LeaderInv(s, d);
    if !s.leaders[d].phase.Finished? {
      FiberCanStep(settings, s, d, LookupFails);
    }
  }

  /**
   * Where no progress is possible nothing is left undone: every caller has its answer or was
   * interrupted, no resolution is pending, every deferred is completed and all permits are back.
   */
  lemma RestIsSettled(settings: Settings, s: State)
    requires Reachable(settings, s) && AtRest(s)
    ensures forall c :: c in s.callers ==> s.callers[c].Answered? || s.callers[c].CallerInterrupted?
    ensures forall d :: d in s.deferreds ==> s.deferreds[d].exit.Some?
    ensures s.pending == map[] && s.permits == settings.lookupConcurrencyLimit
  {
    ReachableInv(settings, s);
    forall d | d in s.leaders ensures s.leaders[d].phase.Finished? && s.deferreds[d].exit.Some? {
      LeadersAtRest(settings, s, d);
    }
    forall c | c in s.callers ensures s.callers[c].Answered? || s.callers[c].CallerInterrupted? {
      assert CallerInv(s, c);
      assert IsProgress(Resume(c)) && !Enabled(s, Resume(c));
    }
    forall a ensures a !in s.pending {
      assert AgentInv(s, a);
    }
    assert Lookups(s) == {};
  }

  /** One token for each step a leading fiber may still take. */
  function Tokens(s: State): set<(DeferredId, nat)> {
    set d, n: nat | d in s.leaders && n < Remaining(s.leaders[d].phase) :: (d, n)
  }

  function Unanswered(s: State): set<CallerId> {
    set c | c in s.callers && (s.callers[c].Leading? || s.callers[c].Waiting?)
  }

  function Work(s: State): nat {
    |Tokens(s)| + |Unanswered(s)|
  }

  lemma {:induction false} FewerIn<T>(small: set<T>, large: set<T>, x: T)
    requires small <= large && x in large && x !in small
    ensures |small| < |large|
  {
    SmallerIn(small, large - {x});
  }

  lemma {:induction false} SmallerIn<T>(small: set<T>, large: set<T>)
    requires small <= large
    ensures |small| <= |large|
  {
    if small != {} {
      var x :| x in small;
      SmallerIn(small - {x}, large - {x});
    }
  }

  lemma FiberUsesTokens(settings: Settings, s: State, step: Step, d: DeferredId)
    requires Inv(settings, s) && Enabled(s, step) && FiberStep(step) == Some(d)
    ensures Work(Apply(settings, s, step)) < Work(s)
  {
    var t := Apply(settings, s, step);
    OwnStepAdvances(settings, s, step, d);
    assert t.leaders == s.leaders[d := t.leaders[d]] && t.callers == s.callers;
    FewerIn(Tokens(t), Tokens(s), (d, Remaining(t.leaders[d].phase)));
    assert Unanswered(t) == Unanswered(s);
  }

  lemma ForkUsesTokens(settings: Settings, s: State, c: CallerId)
    requires Inv(settings, s) && Enabled(s, Fork(c))
    ensures Work(Apply(settings, s, Fork(c))) < Work(s)
  {
    var t := Apply(settings, s, Fork(c));
    var d := s.callers[c].deferred;
    assert t.leaders == s.leaders[d := s.leaders[d].(phase := Started)];
    FewerIn(Tokens(t), Tokens(s), (d, 5));
    assert Unanswered(t) == Unanswered(s);
  }

  /** Every step but a new call uses up work. */
  lemma StepUsesWork(settings: Settings, s: State, step: Step)
    requires Inv(settings, s) && Enabled(s, step) && !step.Call?
    ensures Work(Apply(settings, s, step)) < Work(s)
  {
    match FiberStep(step) {
      case Some(d) => FiberUsesTokens(settings, s, step, d);
      case None =>
        if step.Fork? {
          ForkUsesTokens(settings, s, step.caller);
        } else {
          var t := Apply(settings, s, step);
          assert Tokens(t) == Tokens(s);
          FewerIn(Unanswered(t), Unanswered(s), step.caller);
        }
    }
  }

  /** So a run without new calls is no longer than the work there is, however its steps are interleaved. */
  lemma {:induction false} RunsComeToRest(settings: Settings, s: State, steps: seq<Step>)
    requires Inv(settings, s) && After(settings, s, steps).Some?
    requires forall i :: 0 <= i < |steps| ==> !steps[i].Call?
    ensures |steps| + Work(After(settings, s, steps).value) <= Work(s)
    decreases |steps|
  {
    if steps != [] {
      StepUsesWork(settings, s, steps[0]);
      StepKeepsInv(settings, s, steps[0]);
      RunsComeToRest(settings, Apply(settings, s, steps[0]), steps[1..]);
    }
  }

  // ----- every exit has its cause

  /** What ended the resolution led on `d`, step by step of the source. */
  ghost predicate IsCause(s: State, step: Step, d: DeferredId, exit: Exit) {
    && d in s.leaders
    && match exit
       case Success(card) => step == EndLookup(d, Found(card)) && Belongs(card, s.leaders[d].agent)
       case Failure(Overloaded) => step == AskPermit(d) && s.permits == 0
       case Failure(Unavailable) => step == EndLookup(d, LookupFails)
       case Failure(AuthenticationFailed) =>
         || step == EndLookup(d, NotFound)
         || step == EndLookup(d, ThrowsOnRead)
         || (step.EndLookup? && step.deferred == d && step.end.Found? && !Belongs(step.end.card, s.leaders[d].agent))
       case Interrupted => step == EndLookup(d, LookupInterrupted) || step == InterruptLeader(d)
  }

  ghost predicate HasExit(s: State, d: DeferredId, exit: Exit) {
    d in s.leaders && ExitOf(s.leaders[d].phase) == Some(exit)
  }

  /** A step of a run, with the state it is taken in. */
  ghost predicate Happens(settings: Settings, s: State, steps: seq<Step>, k: nat, before: State) {
    k < |steps| && After(settings, s, steps[..k]) == Some(before) && Enabled(before, steps[k])
  }

  lemma CauseGivesExit(settings: Settings, s: State, step: Step, d: DeferredId, exit: Exit)
    requires Inv(settings, s) && Enabled(s, step) && IsCause(s, step, d, exit)
    ensures HasExit(Apply(settings, s, step), d, exit)
  {
  }

  lemma ExitStepHasCause(settings: Settings, s: State, step: Step, d: DeferredId, exit: Exit)
    requires Inv(settings, s) && Enabled(s, step) && HasExit(Apply(settings, s, step), d, exit) && !HasExit(s, d, exit)
    ensures IsCause(s, step, d, exit)
  {
    assert LeaderInv(s, d);
    if FiberStep(step) != Some(d) && d in s.leaders { OtherStepsKeepLeader(settings, s, step, d); }
  }

  lemma {:induction false} AfterSnoc(settings: Settings, s: State, steps: seq<Step>, n: nat)
    requires n < |steps| && After(settings, s, steps).Some?
    ensures After(settings, s, steps[..n]).Some? && Enabled(After(settings, s, steps[..n]).value, steps[n])
    ensures After(settings, s, steps[..n + 1]) ==
      Some(Apply(settings, After(settings, s, steps[..n]).value, steps[n]))
    decreases |steps|
  {
    var t := Apply(settings, s, steps[0]);
    assert steps[..n + 1][1..] == steps[1..][..n];
    if n > 0 {
      AfterSnoc(settings, t, steps[1..], n - 1);
      assert steps[..n][1..] == steps[1..][..n - 1];
    }
  }

  /**
   * Why a resolution ended: in every run each exit was brought about by the step of its own leader that
   * explains it. In particular `Overloaded` comes only from asking for a permit when all were taken.
   */
  lemma {:induction false} EveryExitHasCause(settings: Settings, steps: seq<Step>, n: nat, d: DeferredId, exit: Exit)
    returns (k: nat, before: State)
    requires n <= |steps| && After(settings, Initial(settings), steps).Some?
    requires After(settings, Initial(settings), steps[..n]).Some?
      && HasExit(After(settings, Initial(settings), steps[..n]).value, d, exit)
    ensures k < n && Happens(settings, Initial(settings), steps, k, before) && IsCause(before, steps[k], d, exit)
    ensures exit == Failure(Overloaded) ==> |Lookups(before)| == settings.lookupConcurrencyLimit
  {
    assert n > 0;
    AfterSnoc(settings, Initial(settings), steps, n - 1);
    before := After(settings, Initial(settings), steps[..n - 1]).value;
    ReachableInv(settings, before);
    if HasExit(before, d, exit) {
      k, before := EveryExitHasCause(settings, steps, n - 1, d, exit);
    } else {
      k := n - 1;
      ExitStepHasCause(settings, before, steps[k], d, exit);
    }
  }

  // ----- a retained card is used

  /** What a step does to the cache. */
  function CacheOps(s: State, step: Step): seq<Op<AgentId, Card>> {
    match step
    case Call(_, agent, _) => [Get(agent)]
    case Retain(d) =>
      if d in s.leaders && s.leaders[d].phase.Looked? then [Set(s.leaders[d].agent, s.leaders[d].phase.card)] else []
    case _ => []
  }

  function CacheTrace(settings: Settings, s: State, steps: seq<Step>): seq<Op<AgentId, Card>>
    decreases |steps|
  {
    if steps == [] || !Enabled(s, steps[0]) then []
    else CacheOps(s, steps[0]) + CacheTrace(settings, Apply(settings, s, steps[0]), steps[1..])
  }

  /** The cards held are those the least-recently-used cache holds after the trace. */
  ghost predicate Follows(settings: Settings, s: State, trace: seq<Op<AgentId, Card>>) {
    s.cards == Run(trace, settings.cacheCapacity)
  }

  lemma StepFollows(settings: Settings, s: State, step: Step, trace: seq<Op<AgentId, Card>>)
    requires Enabled(s, step) && Follows(settings, s, trace)
    ensures Follows(settings, Apply(settings, s, step), trace + CacheOps(s, step))
  {
    var ops := CacheOps(s, step);
    if ops == [] {
      assert trace + ops == trace;
    } else {
      assert (trace + ops)[..|trace + ops| - 1] == trace && (trace + ops)[|trace + ops| - 1] == ops[0];
    }
  }

  /** In every run the cache is that of the run's own reads and writes. */
  lemma {:induction false} RunFollows(settings: Settings, s: State, steps: seq<Step>, trace: seq<Op<AgentId, Card>>)
    requires Follows(settings, s, trace) && After(settings, s, steps).Some?
    ensures Follows(settings, After(settings, s, steps).value, trace + CacheTrace(settings, s, steps))
    decreases |steps|
  {
    if steps == [] {
      assert trace + CacheTrace(settings, s, steps) == trace;
    } else {
      var ops, t := CacheOps(s, steps[0]), Apply(settings, s, steps[0]);
      StepFollows(settings, s, steps[0], trace);
      RunFollows(settings, t, steps[1..], trace + ops);
      Regroup(trace, ops, CacheTrace(settings, t, steps[1..]));
    }
  }

  lemma {:induction false} TraceSnoc(settings: Settings, s: State, steps: seq<Step>, n: nat)
    requires n < |steps| && After(settings, s, steps).Some?
    requires After(settings, s, steps[..n]).Some?
    ensures CacheTrace(settings, s, steps[..n + 1]) ==
      CacheTrace(settings, s, steps[..n]) + CacheOps(After(settings, s, steps[..n]).value, steps[n])
    decreases |steps|
  {
    var t := Apply(settings, s, steps[0]);
    assert steps[..n + 1][1..] == steps[1..][..n];
    if n > 0 {
      assert steps[..n][1..] == steps[1..][..n - 1];
      AfterSnoc(settings, t, steps[1..], n - 1);
      TraceSnoc(settings, t, steps[1..], n - 1);
    }
  }

  /** The agent's card is held and its last lookup is over, up to removing the pending entry. */
  ghost predicate IsRetained(s: State, agent: AgentId, card: Card) {
    && Find(s.cards, agent) == Some(card)
    && forall e :: Unremoved(s, e) && s.leaders[e].agent == agent ==> s.leaders[e].phase.Exiting?
  }

  lemma RetainedStep(settings: Settings, s: State, step: Step, agent: AgentId, card: Card)
    requires Inv(settings, s) && Enabled(s, step) && IsRetained(s, agent, card)
    ensures NeverSet(CacheOps(s, step), agent)
    ensures Find(Apply(settings, s, step).cards, agent) == Some(card) ==>
      IsRetained(Apply(settings, s, step), agent, card)
  {
    var t := Apply(settings, s, step);
    forall e | Unremoved(t, e) && t.leaders[e].agent == agent ensures t.leaders[e].phase.Exiting? {
      if e in s.leaders { StepAdvances(settings, s, step, e); }
      assert e in s.leaders;
      assert Unremoved(s, e);
    }
  }

  lemma RetainRetains(settings: Settings, s: State, d: DeferredId)
    requires Inv(settings, s) && Enabled(s, Retain(d)) && settings.cacheCapacity > 0
    ensures IsRetained(Apply(settings, s, Retain(d)), s.leaders[d].agent, s.leaders[d].phase.card)
  {
    var agent := s.leaders[d].agent;
    var t := Apply(settings, s, Retain(d));
    SetThenFind(s.cards, settings.cacheCapacity, agent, s.leaders[d].phase.card, agent);
    assert LeaderInv(s, d);
    forall e | Unremoved(t, e) && t.leaders[e].agent == agent ensures t.leaders[e].phase.Exiting? {
      assert LeaderInv(s, e);
    }
  }

  lemma FewerOthers(trace: seq<Op<AgentId, Card>>, ops: seq<Op<AgentId, Card>>, agent: AgentId)
    ensures |OtherKeys(trace, agent)| <= |OtherKeys(trace + ops, agent)|
  {
    forall i | 0 <= i < |trace| ensures (trace + ops)[i] == trace[i] {}
    forall key | key in OtherKeys(trace, agent) ensures key in OtherKeys(trace + ops, agent) {
      var i :| 0 <= i < |trace| && trace[i].key != agent && trace[i].key == key;
      assert (trace + ops)[i].key == key;
    }
    SmallerIn(OtherKeys(trace, agent), OtherKeys(trace + ops, agent));
  }

  /** The run after a retained card, as its cache trace: who else came up, and never another card for the agent. */
  ghost predicate KeepsCard(settings: Settings, s: State, steps: seq<Step>, agent: AgentId, card: Card) {
    && NeverSet(CacheTrace(settings, s, steps), agent)
    && After(settings, s, steps).Some? && IsRetained(After(settings, s, steps).value, agent, card)
  }

  lemma FoundAfterRetain(settings: Settings, s: State, steps: seq<Step>, agent: AgentId, card: Card,
                         before: seq<Op<AgentId, Card>>)
    requires Follows(settings, s, before + [Set(agent, card)]) && After(settings, s, steps).Some?
    requires NeverSet(CacheTrace(settings, s, steps), agent)
    requires |OtherKeys(CacheTrace(settings, s, steps), agent)| < settings.cacheCapacity
    ensures Find(After(settings, s, steps).value.cards, agent) == Some(card)
  {
    RunFollows(settings, s, steps, before + [Set(agent, card)]);
    StoredValueStays(before, agent, card, CacheTrace(settings, s, steps), settings.cacheCapacity);
  }

  lemma {:induction false} RetainedAlong(settings: Settings, s: State, steps: seq<Step>, n: nat, agent: AgentId,
                                         card: Card, before: seq<Op<AgentId, Card>>)
    requires Inv(settings, s) && IsRetained(s, agent, card) && Follows(settings, s, before + [Set(agent, card)])
    requires n <= |steps| && After(settings, s, steps).Some?
    requires |OtherKeys(CacheTrace(settings, s, steps[..n]), agent)| < settings.cacheCapacity
    ensures KeepsCard(settings, s, steps[..n], agent, card)
  {
    if n > 0 {
      AfterSnoc(settings, s, steps, n - 1);
      var t := After(settings, s, steps[..n - 1]).value;
      TraceSnoc(settings, s, steps, n - 1);
      var trace := CacheTrace(settings, s, steps[..n - 1]);
      FewerOthers(trace, CacheOps(t, steps[n - 1]), agent);
      RetainedAlong(settings, s, steps, n - 1, agent, card, before);
      RunKeepsInv(settings, s, steps[..n - 1]);
      RetainedStep(settings, t, steps[n - 1], agent, card);
      FoundAfterRetain(settings, s, steps[..n], agent, card, before);
    }
  }

  lemma HeldCardAnswers(settings: Settings, s: State, c: CallerId, agent: AgentId, candidate: DeferredId, card: Card)
    requires Enabled(s, Call(c, agent, candidate)) && Find(s.cards, agent) == Some(card)
    ensures var t := Apply(settings, s, Call(c, agent, candidate));
      t.callers == s.callers[c := Answered(agent, Success(card), None)]
      && t.leaders == s.leaders && t.pending == s.pending && t.deferreds == s.deferreds
  {
  }

  /**
   * A card once retained is used: however the run goes on, while fewer other agents than the capacity
   * come up, the next call for the agent is answered with that card at once and starts no lookup.
   */
  lemma RetainedCardAnswers(settings: Settings, s: State, d: DeferredId, steps: seq<Step>, c: CallerId,
                            candidate: DeferredId)
    requires Reachable(settings, s) && settings.cacheCapacity > 0 && Enabled(s, Retain(d))
    requires After(settings, Apply(settings, s, Retain(d)), steps).Some?
    requires var (retained, agent) := (Apply(settings, s, Retain(d)), s.leaders[d].agent);
      && |OtherKeys(CacheTrace(settings, retained, steps), agent)| < settings.cacheCapacity
      && Enabled(After(settings, retained, steps).value, Call(c, agent, candidate))
    ensures var (agent, card) := (s.leaders[d].agent, s.leaders[d].phase.card);
      var t := After(settings, Apply(settings, s, Retain(d)), steps).value;
      var u := Apply(settings, t, Call(c, agent, candidate));
      u.callers == t.callers[c := Answered(agent, Success(card), None)]
      && u.leaders == t.leaders && u.pending == t.pending && u.deferreds == t.deferreds
  {
    var steps0 :| After(settings, Initial(settings), steps0) == Some(s);
    ReachableInv(settings, s);
    var (agent, card) := (s.leaders[d].agent, s.leaders[d].phase.card);
    var retained := Apply(settings, s, Retain(d));
    var before := CacheTrace(settings, Initial(settings), steps0);
    RunFollows(settings, Initial(settings), steps0, []);
    assert [] + before == before;
    StepFollows(settings, s, Retain(d), before);
    RetainRetains(settings, s, d);
    StepKeepsInv(settings, s, Retain(d));
    assert steps[..|steps|] == steps;
    RetainedAlong(settings, retained, steps, |steps|, agent, card, before);
    HeldCardAnswers(settings, After(settings, retained, steps).value, c, agent, candidate, card);
  }
}

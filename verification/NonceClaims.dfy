/** Replay defence over whole runs of nonce claims. */
module NonceClaims {
  import opened Wrappers
  import opened InsertionMaps

  // The time law is that of packages/identity/src/http-signature.ts, the nonce map that of
  // packages/identity/src/authenticated-http.ts.

  type Nonce = string

  const SIGNATURE_INTERVAL_SECONDS := 300
  const FUTURE_SKEW_SECONDS := 5
  /** The longest time an accepted signature can still be claimed. */
  const LONGEST_RETENTION_SECONDS := SIGNATURE_INTERVAL_SECONDS + FUTURE_SKEW_SECONDS

  /** A signature's replay material with the second it was verified. */
  datatype Request = Request(nonce: Nonce, created: int, expires: int, verifiedAt: int)

  predicate HasAcceptableTimes(created: int, expires: int, now: int) {
    && created <= expires
    && expires - created <= SIGNATURE_INTERVAL_SECONDS
    && created <= now + FUTURE_SKEW_SECONDS
    && expires >= now
  }

  predicate Verified(r: Request) {
    HasAcceptableTimes(r.created, r.expires, r.verifiedAt)
  }

  datatype Claim = Claimed | Replayed | Full

  function Live(nonces: map<Nonce, int>, now: int): map<Nonce, int> {
    map n | n in nonces && nonces[n] >= now :: nonces[n]
  }

  /** What one claim answers, and the nonces it leaves. */
  function ClaimNonce(nonces: map<Nonce, int>, capacity: nat, nonce: Nonce, expires: int, now: int)
    : (Claim, map<Nonce, int>) {
    var live := Live(nonces, now);
    if nonce in live then (Replayed, live)
    else if |live| >= capacity then (Full, live)
    else (Claimed, live[nonce := expires])
  }

  /** The `Ref` holding the live nonces of one AuthenticatedHttp layer. */
  class NonceMemory {
    const capacity: nat
    var nonces: seq<(Nonce, int)>

    ghost predicate Valid()
      reads this
    {
      Distinct(nonces)
    }

    constructor (capacity: nat)
      ensures Valid() && this.capacity == capacity && nonces == []
    {
      this.capacity := capacity;
      nonces := [];
    }

    /** `updateNonces` under `Ref.modify`. */
    method Claim(nonce: Nonce, expires: int, now: int) returns (claim: Claim)
      requires Valid()
      modifies this`nonces
      ensures Valid()
      ensures (claim, AsMap(nonces)) == ClaimNonce(AsMap(old(nonces)), capacity, nonce, expires, now)
    {
      var current := nonces;
      var live: seq<(Nonce, int)> := [];
      for i := 0 to |current|
        invariant Distinct(live)
        invariant forall n :: Find(live, n) == Retained(current[..i], n, now)
      {
        var (retainedNonce, retainedExpiry) := current[i];
        RetainEntry(current, live, i, now);
        if retainedExpiry >= now {
          live := Put(live, retainedNonce, retainedExpiry);
        }
      }
      assert current[..|current|] == current;
      LiveEntries(current, live, now);
      AsMapFacts(live);
      if Find(live, nonce).Some? {
        claim := Replayed;
      } else if |live| >= capacity {
        claim := Full;
      } else {
        ClaimedEntries(live, nonce, expires);
        live := Put(live, nonce, expires);
        claim := Claimed;
      }
      nonces := live;
    }
  }

  lemma RetainEntry(es: seq<(Nonce, int)>, live: seq<(Nonce, int)>, i: nat, now: int)
    requires Distinct(es) && i < |es| && Distinct(live)
    requires forall n :: Find(live, n) == Retained(es[..i], n, now)
    ensures var live' := if es[i].1 >= now then Put(live, es[i].0, es[i].1) else live;
      Distinct(live') && forall n :: Find(live', n) == Retained(es[..i + 1], n, now)
  {
    FindPrefix(es, i);
    var (retainedNonce, retainedExpiry) := es[i];
    assert Find(live, retainedNonce) == None;
    DistinctSnoc(live, retainedNonce, retainedExpiry);
    PutAfterDelete(live, retainedNonce, retainedExpiry);
    forall n ensures Find(live + [(retainedNonce, retainedExpiry)], n)
        == if n == retainedNonce then Some(retainedExpiry) else Find(live, n) {
      FindAppend(live, [(retainedNonce, retainedExpiry)], n);
      assert Find([(retainedNonce, retainedExpiry)], n) == if n == retainedNonce then Some(retainedExpiry) else None;
    }
  }

  lemma LiveEntries(es: seq<(Nonce, int)>, live: seq<(Nonce, int)>, now: int)
    requires forall n :: Find(live, n) == Retained(es, n, now)
    ensures AsMap(live) == Live(AsMap(es), now)
  {
    AsMapFacts(es);
    AsMapFacts(live);
    var a, b := AsMap(live), Live(AsMap(es), now);
    forall n ensures n in a <==> n in b {
      assert Find(live, n) == Retained(es, n, now);
    }
    forall n | n in a ensures a[n] == b[n] {
      assert Find(live, n) == Retained(es, n, now);
    }
  }

  lemma ClaimedEntries(live: seq<(Nonce, int)>, nonce: Nonce, expires: int)
    requires Distinct(live) && Find(live, nonce) == None
    ensures Distinct(Put(live, nonce, expires))
    ensures AsMap(Put(live, nonce, expires)) == AsMap(live)[nonce := expires]
  {
    DistinctSnoc(live, nonce, expires);
    PutAfterDelete(live, nonce, expires);
    AsMapSnoc(live, nonce, expires);
  }

  lemma {:induction false} AsMapSnoc(live: seq<(Nonce, int)>, nonce: Nonce, expires: int)
    requires Find(live, nonce) == None
    ensures AsMap(live + [(nonce, expires)]) == AsMap(live)[nonce := expires]
  {
    if live != [] {
      assert (live + [(nonce, expires)])[1..] == live[1..] + [(nonce, expires)];
      AsMapSnoc(live[1..], nonce, expires);
    }
  }

  /** The entry for `n` in `es`, if it has not expired. */
  ghost function Retained(es: seq<(Nonce, int)>, n: Nonce, now: int): Option<int> {
    match Find(es, n)
    case Some(expiry) => if expiry >= now then Some(expiry) else None
    case None => None
  }

  lemma FindPrefix(es: seq<(Nonce, int)>, i: nat)
    requires Distinct(es) && i < |es|
    ensures Find(es[..i], es[i].0) == None
    ensures forall n :: Find(es[..i + 1], n) == if n == es[i].0 then Some(es[i].1) else Find(es[..i], n)
  {
    DistinctSplit(es, i);
    assert es[..i + 1] == es[..i] + [es[i]];
    forall n ensures Find(es[..i + 1], n) == if n == es[i].0 then Some(es[i].1) else Find(es[..i], n) {
      FindAppend(es[..i], [es[i]], n);
      assert Find([es[i]], n) == if n == es[i].0 then Some(es[i].1) else None;
    }
  }

  lemma {:induction false} DistinctSplit(es: seq<(Nonce, int)>, i: nat)
    requires Distinct(es) && i < |es|
    ensures Find(es[..i], es[i].0) == None
  {
    if i > 0 {
      DistinctSplit(es[1..], i - 1);
      assert es[..i][1..] == es[1..][..i - 1];
      if es[i].0 == es[0].0 { FindAt(es[1..], i - 1); }
    }
  }

  lemma {:induction false} FindAt(es: seq<(Nonce, int)>, i: nat)
    requires i < |es|
    ensures Find(es, es[i].0).Some?
  {
    if i > 0 { FindAt(es[1..], i - 1); }
  }

  // ---------------------------------------------------------------- runs

  function After(run: seq<Request>, capacity: nat): map<Nonce, int> {
    if run == [] then map[]
    else
      var r := run[|run| - 1];
      ClaimNonce(After(run[..|run| - 1], capacity), capacity, r.nonce, r.expires, r.verifiedAt).1
  }

  function Answer(run: seq<Request>, capacity: nat, i: nat): Claim
    requires i < |run|
  {
    ClaimNonce(After(run[..i], capacity), capacity, run[i].nonce, run[i].expires, run[i].verifiedAt).0
  }

  /** Claims arrive in the order their signatures were verified. */
  ghost predicate InClockOrder(run: seq<Request>) {
    forall i, j :: 0 <= i <= j < |run| ==> run[i].verifiedAt <= run[j].verifiedAt
  }

  ghost predicate AllVerified(run: seq<Request>) {
    forall i :: 0 <= i < |run| ==> Verified(run[i])
  }

  lemma AfterStep(run: seq<Request>, capacity: nat, j: nat)
    requires j < |run|
    ensures After(run[..j + 1], capacity) ==
      ClaimNonce(After(run[..j], capacity), capacity, run[j].nonce, run[j].expires, run[j].verifiedAt).1
  {
    assert run[..j + 1][..j] == run[..j];
  }

  /** No claim of the nonce succeeds strictly between `i` and `j`. */
  ghost predicate Untaken(run: seq<Request>, capacity: nat, nonce: Nonce, i: nat, j: nat)
    requires j <= |run|
  {
    forall k: nat :: i < k < j && run[k].nonce == nonce ==> Answer(run, capacity, k) != Claimed
  }

  /** No clock read strictly after `i` and before `j` is past `expires`. */
  ghost predicate NotPurged(run: seq<Request>, expires: int, i: nat, j: nat)
    requires j <= |run|
  {
    forall k :: i < k < j ==> run[k].verifiedAt <= expires
  }

  /** A claim keeps every nonce that has not expired, its own included. */
  lemma ClaimKeeps(nonces: map<Nonce, int>, capacity: nat, r: Request, n: Nonce)
    requires n in nonces && r.verifiedAt <= nonces[n]
    ensures var after := ClaimNonce(nonces, capacity, r.nonce, r.expires, r.verifiedAt).1;
      n in after && after[n] == nonces[n]
  {
  }

  lemma {:induction false} RetainedWhileLive(run: seq<Request>, capacity: nat, i: nat, j: nat)
    requires i < j <= |run| && Answer(run, capacity, i) == Claimed
    requires NotPurged(run, run[i].expires, i, j)
    ensures var nonces := After(run[..j], capacity);
      run[i].nonce in nonces && nonces[run[i].nonce] == run[i].expires
  {
    AfterStep(run, capacity, j - 1);
    if i < j - 1 {
      assert NotPurged(run, run[i].expires, i, j - 1);
      RetainedWhileLive(run, capacity, i, j - 1);
      ClaimKeeps(After(run[..j - 1], capacity), capacity, run[j - 1], run[i].nonce);
    }
  }

  lemma {:induction false} GoneOncePurged(run: seq<Request>, capacity: nat, i: nat, j: nat)
    requires i < j <= |run| && Answer(run, capacity, i) == Claimed
    requires Untaken(run, capacity, run[i].nonce, i, j) && !NotPurged(run, run[i].expires, i, j)
    ensures run[i].nonce !in After(run[..j], capacity)
  {
    AfterStep(run, capacity, j - 1);
    if NotPurged(run, run[i].expires, i, j - 1) {
      assert run[j - 1].verifiedAt > run[i].expires;
      RetainedWhileLive(run, capacity, i, j - 1);
    } else {
      GoneOncePurged(run, capacity, i, j - 1);
    }
  }

  /**
   * Exactly when a replay is caught, on every run: the nonce claimed at `i` is refused at `j` as
   * replayed if and only if no claim after `i`, up to and including `j`, was verified after the
   * expiry recorded at `i`.
   */
  lemma ReplayCaughtIff(run: seq<Request>, capacity: nat, i: nat, j: nat)
    requires i < j < |run| && run[j].nonce == run[i].nonce
    requires Answer(run, capacity, i) == Claimed && Untaken(run, capacity, run[i].nonce, i, j)
    ensures Answer(run, capacity, j) == Replayed <==>
      forall k :: i < k <= j ==> run[k].verifiedAt <= run[i].expires
  {
    if NotPurged(run, run[i].expires, i, j) {
      RetainedWhileLive(run, capacity, i, j);
    } else {
      GoneOncePurged(run, capacity, i, j);
    }
  }

  /**
   * Clock order matters: verification reads the clock before the claim, so a slower request may
   * claim after a later-verified one purged its nonce. Here the same signed request is accepted
   * twice.
   */
  lemma ReplayAcceptedOutOfClockOrder()
    ensures var request := Request("n", 0, 100, 50);
      var run := [request, Request("m", 90, 200, 101), request.(verifiedAt := 100)];
      && AllVerified(run) && !InClockOrder(run)
      && Answer(run, 8, 0) == Claimed && Answer(run, 8, 2) == Claimed
  {
    var request := Request("n", 0, 100, 50);
    var run := [request, Request("m", 90, 200, 101), request.(verifiedAt := 100)];
    AfterStep(run, 8, 0);
    AfterStep(run, 8, 1);
    assert run[..0] == [];
    assert run[0].verifiedAt < run[1].verifiedAt && run[1].verifiedAt > run[2].verifiedAt;
    assert Answer(run, 8, 0) == Claimed;
    assert After(run[..1], 8) == map["n" := 100];
    assert Live(map["n" := 100], 101) == map[];
    assert After(run[..2], 8) == map["m" := 200];
    assert Live(map["m" := 200], 100) == map["m" := 200];
  }

  /** In clock order, a claimed nonce is never claimed again at any time up to its expiry. */
  lemma NeverClaimedTwice(run: seq<Request>, capacity: nat, i: nat, j: nat)
    requires InClockOrder(run) && i < j < |run|
    requires Answer(run, capacity, i) == Claimed
    requires run[j].nonce == run[i].nonce && run[j].verifiedAt <= run[i].expires
    ensures Answer(run, capacity, j) == Replayed
  {
    assert NotPurged(run, run[i].expires, i, j);
    RetainedWhileLive(run, capacity, i, j);
  }

  /** One signed request, however often it is sent, is accepted at most once. */
  lemma SignedRequestAcceptedOnce(run: seq<Request>, capacity: nat, i: nat, j: nat)
    requires InClockOrder(run) && AllVerified(run) && i < j < |run|
    requires run[j] == run[i].(verifiedAt := run[j].verifiedAt)
    ensures Answer(run, capacity, i) == Claimed ==> Answer(run, capacity, j) == Replayed
  {
    if Answer(run, capacity, i) == Claimed { NeverClaimedTwice(run, capacity, i, j); }
  }

  /** The live set never exceeds its capacity, in any clock order. */
  lemma {:induction false} LiveSetIsBounded(run: seq<Request>, capacity: nat)
    ensures |After(run, capacity)| <= capacity
  {
    if run != [] {
      var before := run[..|run| - 1];
      LiveSetIsBounded(before, capacity);
      LiveShrinks(After(before, capacity), run[|run| - 1].verifiedAt);
    }
  }

  lemma LiveShrinks(nonces: map<Nonce, int>, now: int)
    ensures |Live(nonces, now)| <= |nonces|
  {
    SubsetSize(Live(nonces, now).Keys, nonces.Keys);
  }

  lemma {:induction false} SubsetSize(small: set<Nonce>, large: set<Nonce>)
    requires small <= large
    ensures |small| <= |large|
  {
    if x :| x in small { SubsetSize(small - {x}, large - {x}); }
  }

  /** Every retained expiry lies in the 305 seconds from the latest claim. */
  lemma {:induction false} ExpiriesAreNear(run: seq<Request>, capacity: nat)
    requires InClockOrder(run) && AllVerified(run) && run != []
    ensures forall n :: n in After(run, capacity) ==>
      run[|run| - 1].verifiedAt <= After(run, capacity)[n] <= run[|run| - 1].verifiedAt + LONGEST_RETENTION_SECONDS
  {
    var before := run[..|run| - 1];
    if before != [] {
      ExpiriesAreNear(before, capacity);
      assert before[|before| - 1] == run[|run| - 2];
    }
  }

  /** A claim more than 305 seconds after the latest one finds room, and is not a replay. */
  lemma QuietIntervalFreesCapacity(run: seq<Request>, capacity: nat, next: Request)
    requires InClockOrder(run) && AllVerified(run) && capacity > 0
    requires run != [] ==> next.verifiedAt > run[|run| - 1].verifiedAt + LONGEST_RETENTION_SECONDS
    ensures Answer(run + [next], capacity, |run|) == Claimed
  {
    assert (run + [next])[..|run|] == run;
    if run != [] { ExpiriesAreNear(run, capacity); }
    assert Live(After(run, capacity), next.verifiedAt) == map[];
  }

  // ---------------------------------------------------- the step order of verifyRequest

  datatype Admission = Accepted | AuthenticationFailed | Overloaded | VersionMismatch

  /** The end of `verifyRequest` and `verifyBootstrapRequest`: claim first, then check the version. */
  function Admit(nonces: map<Nonce, int>, capacity: nat, r: Request, versionIsLive: bool)
    : (Admission, map<Nonce, int>) {
    if !Verified(r) then (AuthenticationFailed, nonces)
    else
      var (claim, after) := ClaimNonce(nonces, capacity, r.nonce, r.expires, r.verifiedAt);
      match claim
      case Replayed => (AuthenticationFailed, after)
      case Full => (Overloaded, after)
      case Claimed => (if versionIsLive then Accepted else VersionMismatch, after)
  }

  /**
   * A request refused for its version has still used up its nonce: sent again before it expires,
   * with any version, it is an authentication failure.
   */
  lemma VersionMismatchConsumesNonce(nonces: map<Nonce, int>, capacity: nat, r: Request, again: Request, live: bool)
    requires Admit(nonces, capacity, r, false).0 == VersionMismatch
    requires again == r.(verifiedAt := again.verifiedAt)
    ensures Admit(Admit(nonces, capacity, r, false).1, capacity, again, live).0 == AuthenticationFailed
  {
    assert r.nonce in Admit(nonces, capacity, r, false).1;
  }

  /** The nonces still held at `now`. */
  function HeldAt(nonces: map<Nonce, int>, now: int): set<Nonce> {
    set n | n in nonces && now <= nonces[n]
  }

  /** The times a signature may have: at most 300 seconds long, not more than 5 seconds ahead, not expired. */
  predicate IsTimely(r: Request) {
    r.created <= r.expires <= r.created + 300 && r.created - 5 <= r.verifiedAt <= r.expires
  }

  lemma LiveIsHeld(nonces: map<Nonce, int>, now: int)
    ensures Live(nonces, now).Keys == HeldAt(nonces, now) && |Live(nonces, now)| == |HeldAt(nonces, now)|
  {
    var live := Live(nonces, now);
    assert live.Keys == HeldAt(nonces, now) && |live| == |live.Keys|;
  }

  /**
   * Every request's outcome, from its times, the nonces held and the version alone; and what is held
   * then: nothing changes for bad times, else what has expired goes and a claimed nonce is added.
   */
  lemma AdmitIff(nonces: map<Nonce, int>, capacity: nat, r: Request, versionIsLive: bool)
    ensures var (admission, after) := Admit(nonces, capacity, r, versionIsLive);
      var held := HeldAt(nonces, r.verifiedAt);
      var claims := IsTimely(r) && r.nonce !in held && |held| < capacity;
      && (admission == Accepted <==> claims && versionIsLive)
      && (admission == VersionMismatch <==> claims && !versionIsLive)
      && (admission == Overloaded <==> IsTimely(r) && r.nonce !in held && |held| >= capacity)
      && (admission == AuthenticationFailed <==> !IsTimely(r) || r.nonce in held)
      && (!IsTimely(r) ==> after == nonces)
      && (IsTimely(r) ==> after.Keys == if claims then held + {r.nonce} else held)
      && forall n :: n in after ==> after[n] == if claims && n == r.nonce then r.expires else nonces[n]
  {
    LiveIsHeld(nonces, r.verifiedAt);
  }

  // ------------------------------------------------------ runs of requests

  /** The nonces held after a run of requests, each with whether its version was live. */
  function AfterRequests(run: seq<(Request, bool)>, capacity: nat): map<Nonce, int> {
    if run == [] then map[]
    else
      var (r, versionIsLive) := run[|run| - 1];
      Admit(AfterRequests(run[..|run| - 1], capacity), capacity, r, versionIsLive).1
  }

  function AdmissionOf(run: seq<(Request, bool)>, capacity: nat, i: nat): Admission
    requires i < |run|
  {
    Admit(AfterRequests(run[..i], capacity), capacity, run[i].0, run[i].1).0
  }

  ghost predicate RequestsInClockOrder(run: seq<(Request, bool)>) {
    forall i, j :: 0 <= i <= j < |run| ==> run[i].0.verifiedAt <= run[j].0.verifiedAt
  }

  lemma {:induction false} HeldWhileLive(run: seq<(Request, bool)>, capacity: nat, i: nat, j: nat)
    requires RequestsInClockOrder(run) && i < j < |run| && AdmissionOf(run, capacity, i) in {Accepted, VersionMismatch}
    requires run[j].0.verifiedAt <= run[i].0.expires
    ensures var nonces := AfterRequests(run[..j], capacity);
      run[i].0.nonce in nonces && nonces[run[i].0.nonce] == run[i].0.expires
  {
    assert run[..j][..j - 1] == run[..j - 1];
    if i < j - 1 { HeldWhileLive(run, capacity, i, j - 1); }
    AdmitIff(AfterRequests(run[..j - 1], capacity), capacity, run[j - 1].0, run[j - 1].1);
  }

  /** In clock order, a nonce that was accepted, or refused for its version, is not accepted again while it lives. */
  lemma AdmittedOnce(run: seq<(Request, bool)>, capacity: nat, i: nat, j: nat)
    requires RequestsInClockOrder(run) && i < j < |run| && run[j].0.nonce == run[i].0.nonce
    requires AdmissionOf(run, capacity, i) in {Accepted, VersionMismatch} && run[j].0.verifiedAt <= run[i].0.expires
    ensures AdmissionOf(run, capacity, j) == AuthenticationFailed
  {
    HeldWhileLive(run, capacity, i, j);
    AdmitIff(AfterRequests(run[..j], capacity), capacity, run[j].0, run[j].1);
  }
}

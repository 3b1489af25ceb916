/**
 * Which database a read goes to: the per-request routing that keeps a user's own writes visible
 * over a lagging replica, and the circuit breaker that takes the replica out of use.
 */
module ReadRouting {
  import opened Outcomes

  datatype Role = Primary | Read

  /** A write to the primary by a user, committed at one time and marked at another. */
  datatype Write = Write(user: string, committed: int, marked: int)

  datatype RoutingContext = RoutingContext(verb: string, userId: string)

  predicate ReadOperation(operation: string) {
    operation in {"findFirst", "findFirstOrThrow", "findMany", "findUnique", "findUniqueOrThrow",
                  "count", "aggregate", "groupBy"}
  }

  function LatestMark(history: seq<Write>, user: string): Option<int> {
    if history == [] then None
    else if history[|history| - 1].user == user then Some(history[|history| - 1].marked)
    else LatestMark(history[..|history| - 1], user)
  }

  /** Whether the user has a marked write no older than the window. */
  predicate RecentlyWrote(history: seq<Write>, user: string, now: int, window: nat) {
    exists i :: 0 <= i < |history| && history[i].user == user && now - history[i].marked <= window
  }

  /** Writes are marked in clock order, after they were committed. */
  predicate Ordered(history: seq<Write>, clock: int) {
    && (forall i :: 0 <= i < |history| ==> history[i].committed <= history[i].marked <= clock)
    && (forall i, j :: 0 <= i < j < |history| ==> history[i].marked <= history[j].marked)
  }

  lemma {:induction false} LatestDecides(history: seq<Write>, user: string, now: int, window: nat, clock: int)
    requires Ordered(history, clock)
    ensures RecentlyWrote(history, user, now, window) <==>
            LatestMark(history, user).Some? && now - LatestMark(history, user).value <= window
  {
    if history != [] {
      var n := |history| - 1;
      if history[n].user != user {
        LatestDecides(history[..n], user, now, window, clock);
        if RecentlyWrote(history, user, now, window) {
          var i :| 0 <= i < |history| && history[i].user == user && now - history[i].marked <= window;
          assert history[..n][i] == history[i];
        }
        if RecentlyWrote(history[..n], user, now, window) {
          var i :| 0 <= i < n && history[..n][i].user == user && now - history[..n][i].marked <= window;
          assert history[i].user == user;
        }
      }
    }
  }

  /** The map answers for a user as the whole history does, now and at every later time. */
  predicate Remembers(recent: map<string, int>, history: seq<Write>, user: string, clock: int, window: nat) {
    match LatestMark(history, user)
    case None => user !in recent
    case Some(t) => if user in recent then recent[user] == t else clock - t > window
  }

  class RequestContext {
    const window: nat
    var recent: map<string, int>
    ghost var history: seq<Write>
    ghost var clock: int

    ghost predicate Valid()
      reads this
    {
      Ordered(history, clock) && forall user: string :: Remembers(recent, history, user, clock, window)
    }

    constructor (window: nat, now: int)
      ensures Valid() && this.window == window && history == [] && clock == now
    {
      this.window := window;
      recent, history, clock := map[], [], now;
    }

    method PruneExpiredEntries(now: int)
      requires Valid() && clock <= now
      modifies this`recent, this`clock
      ensures Valid() && clock == now
      ensures recent.Keys == set user | user in old(recent) && now - old(recent)[user] <= window
    {
      ghost var before := clock;
      clock := now;
      forall u: string ensures Remembers(recent, history, u, now, window) {
        assert Remembers(recent, history, u, before, window);
      }
      var pending := recent.Keys;
      while pending != {}
        invariant Valid() && clock == now && pending <= recent.Keys <= old(recent).Keys
        invariant forall user :: user in recent ==> recent[user] == old(recent)[user]
        invariant forall user :: user in old(recent) && user !in pending ==>
                                   (user in recent <==> now - old(recent)[user] <= window)
        decreases |pending|
      {
        var user :| user in pending;
        pending := pending - {user};
        if now - recent[user] > window {
          ghost var was := recent;
          assert Remembers(was, history, user, now, window);
          recent := recent - {user};
          forall u: string ensures Remembers(recent, history, u, now, window) {
            assert Remembers(was, history, u, now, window);
          }
        }
      }
    }

    method ShouldForcePrimaryReadForUser(user: string, now: int) returns (force: bool)
      requires Valid() && clock <= now
      modifies this`recent, this`clock
      ensures Valid() && clock == now
      ensures force <==> RecentlyWrote(history, user, now, window)
    {
      PruneExpiredEntries(now);
      LatestDecides(history, user, now, window, clock);
      assert Remembers(recent, history, user, clock, window);
      if user !in recent {
        return false;
      }
      force := now - recent[user] <= window;
    }

    method MarkUserWriteToPrimary(user: string, now: int, ghost committed: int)
      requires Valid() && clock <= now && committed <= now
      modifies this`recent, this`history, this`clock
      ensures Valid() && clock == now
      ensures history == old(history) + [Write(user, committed, now)]
    {
      ghost var (was, before, since) := (recent, history, clock);
      recent := recent[user := now];
      history := history + [Write(user, committed, now)];
      clock := now;
      assert history[..|history| - 1] == before;
      forall u: string ensures Remembers(recent, history, u, now, window) {
        assert Remembers(was, before, u, since, window);
      }
      PruneExpiredEntries(now);
    }

    method GetDatabaseRoleForOperation(store: Option<RoutingContext>, operation: string, now: int) returns (role: Role)
      requires Valid() && clock <= now
      modifies this`recent, this`clock
      ensures Valid() && old(clock) <= clock <= now
      ensures role == RoleFor(history, store, operation, now, window)
      ensures forall lag :: lag <= window + 1 ==> SeesOwnWrites(history, store, operation, now, window, lag)
    {
      forall lag | lag <= window + 1 ensures SeesOwnWrites(history, store, operation, now, window, lag) {
        ReadYourWrites(history, store, operation, now, window, lag);
      }
      if store.None? || store.value.verb != "GET" {
        return Primary;
      }
      if !ReadOperation(operation) {
        return Primary;
      }
      if store.value.userId != "" {
        var force := ShouldForcePrimaryReadForUser(store.value.userId, now);
        if force {
          return Primary;
        }
      }
      role := Read;
    }
  }

  /** The role as a function of everything ever written. */
  function RoleFor(history: seq<Write>, store: Option<RoutingContext>, operation: string, now: int, window: nat): Role {
    if store.None? || store.value.verb != "GET" || !ReadOperation(operation) then Primary
    else if store.value.userId != "" && RecentlyWrote(history, store.value.userId, now, window) then Primary
    else Read
  }

  /**
   * The replica is asked exactly by GET requests, for these eight operations, and unless the request's
   * user has a marked write no older than the window.
   */
  lemma {:induction false} ReplicaExactly(
      history: seq<Write>, store: Option<RoutingContext>, operation: string, now: int, window: nat)
    ensures RoleFor(history, store, operation, now, window) == Read <==>
            && store.Some? && store.value.verb == "GET"
            && (operation == "findFirst" || operation == "findFirstOrThrow" || operation == "findMany"
                || operation == "findUnique" || operation == "findUniqueOrThrow" || operation == "count"
                || operation == "aggregate" || operation == "groupBy")
            && (store.value.userId == "" ||
                forall i :: 0 <= i < |history| && history[i].user == store.value.userId ==>
                              now - history[i].marked > window)
  {
  }

  /** So no write ever goes to the replica. */
  lemma {:induction false} WritesGoToPrimary(
      history: seq<Write>, store: Option<RoutingContext>, operation: string, now: int, window: nat)
    requires operation == "create" || operation == "createMany" || operation == "update" || operation == "updateMany"
             || operation == "upsert" || operation == "delete" || operation == "deleteMany"
    ensures RoleFor(history, store, operation, now, window) == Primary
  {
    assert |"create"| == |"update"| == |"upsert"| == |"delete"| == 6;
    assert |"createMany"| == |"updateMany"| == |"deleteMany"| == |"findUnique"| == 10;
    assert "findUnique"[0] != "createMany"[0] && "findUnique"[0] != "updateMany"[0];
    assert "findUnique"[0] != "deleteMany"[0];
    assert |"findFirst"| == 9 && |"findFirstOrThrow"| == 16 && |"findMany"| == 8 && |"findUniqueOrThrow"| == 17;
    assert |"count"| == 5 && |"aggregate"| == 9 && |"groupBy"| == 7;
  }

  // ----- read your writes

  /** The replica shows what was committed at least `lag` before. */
  predicate Applied(w: Write, now: int, lag: int) {
    w.committed <= now - lag
  }

  /** Every write the user has marked is visible to this read: the primary shows all of them. */
  predicate SeesOwnWrites(
      history: seq<Write>, store: Option<RoutingContext>, operation: string, now: int, window: nat, lag: int)
  {
    RoleFor(history, store, operation, now, window).Read? && store.value.userId != "" ==>
      forall i :: 0 <= i < |history| && history[i].user == store.value.userId ==> Applied(history[i], now, lag)
  }

  /** Times are whole milliseconds, so a replica may lag one longer than the window. */
  lemma {:induction false} ReadYourWrites(
      history: seq<Write>, store: Option<RoutingContext>, operation: string, now: int, window: nat, lag: int)
    requires Ordered(history, now) && lag <= window + 1
    ensures SeesOwnWrites(history, store, operation, now, window, lag)
  {
    if RoleFor(history, store, operation, now, window).Read? && store.value.userId != "" {
      forall i | 0 <= i < |history| && history[i].user == store.value.userId ensures Applied(history[i], now, lag) {
        assert !(now - history[i].marked <= window);
      }
    }
  }

  /** No larger lag is safe: one write and one later read are enough to miss it. */
  lemma {:induction false} LongerLagMisses(window: nat, lag: int, user: string)
    requires lag > window + 1 && user != ""
    ensures var history := [Write(user, 0, 0)];
            Ordered(history, window + 1)
            && !SeesOwnWrites(history, Some(RoutingContext("GET", user)), "findMany", window + 1, window, lag)
  {
    var history := [Write(user, 0, 0)];
    assert !RecentlyWrote(history, user, window + 1, window);
    assert history[0].user == user && !Applied(history[0], window + 1, lag);
  }

  // ----- the replica's circuit breaker

  datatype Breaker = Breaker(healthy: bool, failures: nat, openUntil: int)

  datatype Settings = Settings(threshold: nat, cooldown: nat)

  /** One health check: the clock when it starts, its result, and the clock and probe result later on. */
  datatype Check = Check(start: int, ok: bool, failedAt: int, again: int, probeOk: bool, probed: int)

  predicate Performed(b: Breaker, c: Check) {
    b.healthy || c.start >= b.openUntil
  }

  function Failed(b: Breaker, s: Settings, now: int): Breaker {
    if b.failures + 1 >= s.threshold then Breaker(false, b.failures + 1, now + s.cooldown)
    else b.(failures := b.failures + 1)
  }

  function AfterCheck(b: Breaker, s: Settings, c: Check): Breaker {
    if !Performed(b, c) then b
    else if c.ok then b.(failures := 0, healthy := true)
    else
      var f := Failed(b, s, c.failedAt);
      if f.healthy || c.again < f.openUntil then f
      else if c.probeOk then Breaker(true, 0, 0)
      else f.(openUntil := c.probed + s.cooldown)
  }

  class ReplicaHealth {
    const settings: Settings
    var healthy: bool
    var failures: nat
    var openUntil: int

    function State(): Breaker
      reads this
    {
      Breaker(healthy, failures, openUntil)
    }

    constructor (settings: Settings)
      ensures this.settings == settings && State() == Breaker(true, 0, 0)
    {
      this.settings := settings;
      healthy, failures, openUntil := true, 0, 0;
    }

    method MarkReadReplicaFailure(now: int)
      modifies this`healthy, this`failures, this`openUntil
      ensures State() == Failed(old(State()), settings, now)
    {
      failures := failures + 1;
      if failures >= settings.threshold {
        healthy := false;
        openUntil := now + settings.cooldown;
      }
    }

    method ProbeReadReplica(ok: bool, now: int)
      modifies this`healthy, this`failures, this`openUntil
      ensures State() == if ok then Breaker(true, 0, 0) else old(State()).(openUntil := now + settings.cooldown)
    {
      if ok {
        failures, healthy, openUntil := 0, true, 0;
      } else {
        openUntil := now + settings.cooldown;
      }
    }

    method CheckReadReplicaHealth(c: Check)
      modifies this`healthy, this`failures, this`openUntil
      ensures State() == AfterCheck(old(State()), settings, c)
    {
      if !healthy && c.start < openUntil {
        return;
      }
      if c.ok {
        failures, healthy := 0, true;
      } else {
        MarkReadReplicaFailure(c.failedAt);
      }
      if !healthy && c.again >= openUntil {
        ProbeReadReplica(c.probeOk, c.probed);
      }
    }

    /** Where a query of the given role goes. */
    method Route(role: Role) returns (toReplica: bool)
      ensures toReplica <==> role.Read? && healthy
    {
      toReplica := role.Read? && healthy;
    }
  }

  /** The clock readings of a check are in order, and after an earlier time. */
  predicate InTime(c: Check, since: int) {
    since <= c.start <= c.failedAt <= c.again <= c.probed
  }

  /** The circuit is open exactly while the failures in a row have reached the threshold. */
  predicate Consistent(b: Breaker, s: Settings) {
    b.healthy <==> b.failures < s.threshold
  }

  function AfterChecks(b: Breaker, s: Settings, cs: seq<Check>): Breaker {
    if cs == [] then b else AfterCheck(AfterChecks(b, s, cs[..|cs| - 1]), s, cs[|cs| - 1])
  }

  /** Whether the i-th check of a run is made at all: the circuit is closed, or its cooldown is over. */
  predicate Made(s: Settings, cs: seq<Check>, i: nat)
    requires i < |cs|
  {
    Performed(AfterChecks(Breaker(true, 0, 0), s, cs[..i]), cs[i])
  }

  /** The probe closes the circuit: a whole cooldown passed between two clock readings of one check. */
  predicate ProbeCloses(b: Breaker, s: Settings, c: Check) {
    b.failures + 1 >= s.threshold && c.again - c.failedAt >= s.cooldown && c.probeOk
  }

  /** The i-th check is made and ends well, by itself or by the probe. */
  predicate EndsWell(s: Settings, cs: seq<Check>, i: nat)
    requires i < |cs|
  {
    Made(s, cs, i) && (cs[i].ok || ProbeCloses(AfterChecks(Breaker(true, 0, 0), s, cs[..i]), s, cs[i]))
  }

  /** The checks that were made with none from them on that ended well. */
  function TrailingFailures(s: Settings, cs: seq<Check>): set<nat> {
    set i: nat | i < |cs| && Made(s, cs, i) && forall j: nat :: i <= j < |cs| ==> !EndsWell(s, cs, j)
  }

  lemma {:induction false} CheckCounts(b: Breaker, s: Settings, c: Check)
    requires s.threshold > 0 && Consistent(b, s)
    ensures var after := AfterCheck(b, s, c);
            && Consistent(after, s)
            && (after.failures == if !Performed(b, c) then b.failures
                                  else if c.ok || ProbeCloses(b, s, c) then 0
                                  else b.failures + 1)
  {
  }

  lemma {:induction false} TrailingNext(s: Settings, cs: seq<Check>)
    requires cs != []
    ensures var n, before := |cs| - 1, TrailingFailures(s, cs[..|cs| - 1]);
            TrailingFailures(s, cs) ==
            if !Made(s, cs, n) then before else if EndsWell(s, cs, n) then {} else before + {n}
  {
    var n, init := |cs| - 1, cs[..|cs| - 1];
    forall i: nat | i < n ensures Made(s, init, i) == Made(s, cs, i) && EndsWell(s, init, i) == EndsWell(s, cs, i) {
      assert init[..i] == cs[..i];
    }
    if !Made(s, cs, n) {
      assert forall i: nat :: i in TrailingFailures(s, init) <==> i in TrailingFailures(s, cs);
    } else if !EndsWell(s, cs, n) {
      assert forall i: nat :: i in TrailingFailures(s, init) + {n} <==> i in TrailingFailures(s, cs);
    }
  }

  /**
   * Over every run the breaker counts the checks made since one last ended well, and takes the
   * replica out of use exactly while there are at least `threshold` of them.
   */
  lemma {:induction false} OpenExactlyAfterThreshold(s: Settings, cs: seq<Check>)
    requires s.threshold > 0
    ensures var b := AfterChecks(Breaker(true, 0, 0), s, cs);
            && Consistent(b, s) && b.failures == |TrailingFailures(s, cs)|
            && (!b.healthy <==> |TrailingFailures(s, cs)| >= s.threshold)
  {
    if cs != [] {
      var init := cs[..|cs| - 1];
      OpenExactlyAfterThreshold(s, init);
      TrailingNext(s, cs);
      CheckCounts(AfterChecks(Breaker(true, 0, 0), s, init), s, cs[|cs| - 1]);
    }
  }

  /** The same checks with other probe results. */
  predicate SameButProbes(cs: seq<Check>, ds: seq<Check>) {
    |cs| == |ds| && forall i :: 0 <= i < |cs| ==> cs[i] == ds[i].(probeOk := cs[i].probeOk, probed := cs[i].probed)
  }

  /** As long as no check takes a whole cooldown between two clock readings no run depends on the probes at all. */
  lemma {:induction false} QuickChecksIgnoreProbes(b: Breaker, s: Settings, cs: seq<Check>, ds: seq<Check>)
    requires SameButProbes(cs, ds) && Consistent(b, s)
    requires s.threshold > 0 && forall i :: 0 <= i < |cs| ==> cs[i].again - cs[i].failedAt < s.cooldown
    ensures AfterChecks(b, s, cs) == AfterChecks(b, s, ds) && Consistent(AfterChecks(b, s, cs), s)
  {
    if cs != [] {
      var n := |cs| - 1;
      QuickChecksIgnoreProbes(b, s, cs[..n], ds[..n]);
      CheckCounts(AfterChecks(b, s, cs[..n]), s, cs[n]);
    }
  }

  /**
   * The probe looks at the connection alone: if every check takes a whole cooldown, as with a
   * cooldown of zero, a replica that answers stays in use over every run, although every lag check
   * fails.
   */
  lemma {:induction false} SlowChecksNeverOpen(s: Settings, cs: seq<Check>)
    requires s.threshold > 0
    requires forall i :: 0 <= i < |cs| ==> !cs[i].ok && cs[i].probeOk && cs[i].again - cs[i].failedAt >= s.cooldown
    ensures AfterChecks(Breaker(true, 0, 0), s, cs).healthy && Consistent(AfterChecks(Breaker(true, 0, 0), s, cs), s)
  {
    if cs != [] {
      var n := |cs| - 1;
      SlowChecksNeverOpen(s, cs[..n]);
      CheckCounts(AfterChecks(Breaker(true, 0, 0), s, cs[..n]), s, cs[n]);
    }
  }

  /**
   * When a failed check last set the cooldown: at its probe if a whole cooldown had passed by then,
   * else at its failure.
   */
  function PausedAt(s: Settings, c: Check): int {
    if c.again - c.failedAt >= s.cooldown then c.probed else c.failedAt
  }

  /**
   * A check that is made and leaves the circuit open silences all checks that start within a cooldown
   * from then, however many and whatever they would find; the first that starts later and ends well
   * closes the circuit.
   */
  lemma {:induction false} CooldownExactly(b: Breaker, s: Settings, c: Check, between: seq<Check>, d: Check)
    requires s.threshold > 0 && Consistent(b, s) && (b.healthy || c.start >= b.openUntil)
    requires !AfterCheck(b, s, c).healthy && d.ok
    requires forall i :: 0 <= i < |between| ==> between[i].start < PausedAt(s, c) + s.cooldown
    ensures AfterChecks(AfterCheck(b, s, c), s, between) == AfterCheck(b, s, c)
    ensures AfterCheck(AfterCheck(b, s, c), s, d).healthy <==> d.start >= PausedAt(s, c) + s.cooldown
  {
    if between != [] {
      CooldownExactly(b, s, c, between[..|between| - 1], d);
    }
  }

  predicate Down(cs: seq<Check>) {
    forall i :: 0 <= i < |cs| ==> !cs[i].ok && !cs[i].probeOk
  }

  predicate Timed(cs: seq<Check>, start: int) {
    && (forall i :: 0 <= i < |cs| ==> InTime(cs[i], start))
    && (forall i, j :: 0 <= i < j < |cs| ==> cs[i].probed <= cs[j].start)
  }

  /** How many of the checks query the replica. */
  function Queries(b: Breaker, s: Settings, cs: seq<Check>): nat {
    if cs == [] then 0
    else
      Queries(b, s, cs[..|cs| - 1])
      + if Performed(AfterChecks(b, s, cs[..|cs| - 1]), cs[|cs| - 1]) then 1 else 0
  }

  function Times(a: nat, k: int): int {
    a * k
  }

  /** The state while the replica is down, after so many queries since `start` and up to `last`. */
  predicate DownState(b: Breaker, s: Settings, queries: nat, start: int, last: int) {
    && Consistent(b, s) && b.failures == queries && start <= last
    && (!b.healthy ==> start + Times(s.cooldown, queries - s.threshold + 1) <= b.openUntil <= last + s.cooldown)
  }

  lemma {:induction false} DownStep(b: Breaker, s: Settings, c: Check, queries: nat, start: int, last: int)
    requires s.threshold > 0 && DownState(b, s, queries, start, last)
    requires !c.ok && !c.probeOk && InTime(c, last)
    ensures DownState(AfterCheck(b, s, c), s, queries + (if Performed(b, c) then 1 else 0), start, c.probed)
  {
    if Performed(b, c) {
      OneMore(s.cooldown, queries - s.threshold + 1);
      OneMore(s.cooldown, 0);
    }
  }

  lemma {:induction false} DownRun(s: Settings, cs: seq<Check>, start: int)
    requires s.threshold > 0 && Down(cs) && Timed(cs, start)
    ensures DownState(AfterChecks(Breaker(true, 0, 0), s, cs), s, Queries(Breaker(true, 0, 0), s, cs), start,
                      if cs == [] then start else cs[|cs| - 1].probed)
  {
    if cs != [] {
      var n := |cs| - 1;
      var before := cs[..n];
      DownRun(s, before, start);
      assert n > 0 ==> before[n - 1] == cs[n - 1];
      DownStep(AfterChecks(Breaker(true, 0, 0), s, before), s, cs[n], Queries(Breaker(true, 0, 0), s, before), start,
               if n == 0 then start else cs[n - 1].probed);
    }
  }

  lemma {:induction false} OneMore(a: nat, k: int)
    ensures Times(a, k + 1) == Times(a, k) + a && Times(a, 0) == 0
  {
  }

  /**
   * While a replica is down, the breaker lets the first `threshold` checks through and after that
   * at most one per cooldown.
   */
  lemma {:induction false} QueriesAreSpaced(s: Settings, cs: seq<Check>, start: int)
    requires s.threshold > 0 && Down(cs) && Timed(cs, start) && cs != []
    ensures var q := Queries(Breaker(true, 0, 0), s, cs);
            q > s.threshold ==> s.cooldown * (q - s.threshold) <= cs[|cs| - 1].probed - start
  {
    DownRun(s, cs, start);
    var q := Queries(Breaker(true, 0, 0), s, cs);
    if q > s.threshold {
      OneMore(s.cooldown, q - s.threshold);
    }
  }
}

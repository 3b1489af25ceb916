/** The fixed-window request limiter of the edge middleware. */
module RateLimit {
  import opened Outcomes

  const MAX_REQUESTS: nat := 100
  const WINDOW_MS: nat := 60_000

  datatype Record = Record(count: nat, resetTime: int)

  datatype Request = Request(ip: string, at: int)

  type Records = map<string, Record>

  function RecordOf(records: Records, ip: string): Option<Record> {
    if ip in records then Some(records[ip]) else None
  }

  /** What one request does to the record of its address, and whether it is let through. */
  function Admit(record: Option<Record>, now: int): (Record, bool) {
    if record.None? || now > record.value.resetTime then (Record(1, now + WINDOW_MS), true)
    else if record.value.count >= MAX_REQUESTS then (record.value, false)
    else (record.value.(count := record.value.count + 1), true)
  }

  class RateLimiter {
    var records: Records

    constructor ()
      ensures records == map[]
    {
      records := map[];
    }

    method CheckRateLimit(ip: string, now: int) returns (allowed: bool)
      modifies this`records
      ensures (records, allowed) == After(old(records), Request(ip, now))
    {
      if ip !in records || now > records[ip].resetTime {
        records := records[ip := Record(1, now + WINDOW_MS)];
        return true;
      }
      if records[ip].count >= MAX_REQUESTS {
        assert records[ip := records[ip]] == records;
        return false;
      }
      records := records[ip := records[ip].(count := records[ip].count + 1)];
      allowed := true;
    }
  }

  function After(records: Records, r: Request): (Records, bool) {
    var (record, allowed) := Admit(RecordOf(records, r.ip), r.at);
    (records[r.ip := record], allowed)
  }

  // ----- runs

  function Run(rs: seq<Request>): Records {
    if rs == [] then map[] else After(Run(rs[..|rs| - 1]), rs[|rs| - 1]).0
  }

  predicate Allowed(rs: seq<Request>, i: nat)
    requires i < |rs|
  {
    After(Run(rs[..i]), rs[i]).1
  }

  /** How many requests of an address between two times, both included, were let through. */
  function AllowedIn(rs: seq<Request>, ip: string, lo: int, hi: int): nat {
    if rs == [] then 0
    else
      var n := |rs| - 1;
      AllowedIn(rs[..n], ip, lo, hi) + if rs[n].ip == ip && lo <= rs[n].at <= hi && Allowed(rs, n) then 1 else 0
  }

  /** The run with one more request. */
  lemma {:induction false} Extend(rs: seq<Request>, r: Request, ip: string, lo: int, hi: int)
    ensures RecordOf(Run(rs + [r]), ip) ==
            if r.ip == ip then Some(Admit(RecordOf(Run(rs), ip), r.at).0) else RecordOf(Run(rs), ip)
    ensures AllowedIn(rs + [r], ip, lo, hi) == AllowedIn(rs, ip, lo, hi)
              + if r.ip == ip && lo <= r.at <= hi && Admit(RecordOf(Run(rs), ip), r.at).1 then 1 else 0
  {
    assert (rs + [r])[..|rs|] == rs;
  }

  predicate Timed(rs: seq<Request>) {
    forall i, j :: 0 <= i < j < |rs| ==> rs[i].at <= rs[j].at
  }

  /** No request before `lo` is counted. */
  lemma {:induction false} NoneBefore(rs: seq<Request>, ip: string, lo: int, hi: int)
    requires forall i :: 0 <= i < |rs| ==> rs[i].at < lo
    ensures AllowedIn(rs, ip, lo, hi) == 0
  {
    if rs != [] {
      NoneBefore(rs[..|rs| - 1], ip, lo, hi);
    }
  }

  /** What the record of the address bounds, for the interval that starts at `lo`. */
  predicate Bounded(record: Option<Record>, seen: nat, lo: int, last: int) {
    match record
    case None => seen == 0
    case Some(r) =>
      var start := r.resetTime - WINDOW_MS;
      && 1 <= r.count <= MAX_REQUESTS && start <= last
      && seen <= (if start < lo then r.count - 1
                  else if start <= lo + WINDOW_MS then r.count + MAX_REQUESTS - 1
                  else 2 * MAX_REQUESTS - 1)
  }

  lemma {:induction false} BoundedStep(record: Option<Record>, seen: nat, lo: int, last: int, at: int)
    requires Bounded(record, seen, lo, last) && last <= at
    requires at < lo ==> seen == 0
    ensures var (next, allowed) := Admit(record, at);
            Bounded(Some(next), seen + (if allowed && lo <= at <= lo + WINDOW_MS then 1 else 0), lo, at)
  {
  }

  lemma {:induction false} BoundedRun(rs: seq<Request>, ip: string, lo: int)
    requires Timed(rs)
    ensures Bounded(RecordOf(Run(rs), ip), AllowedIn(rs, ip, lo, lo + WINDOW_MS), lo,
                    if rs == [] then 0 else rs[|rs| - 1].at)
  {
    if rs != [] {
      var n := |rs| - 1;
      var before, r := rs[..n], rs[n];
      BoundedRun(before, ip, lo);
      if r.at < lo {
        NoneBefore(before, ip, lo, lo + WINDOW_MS);
      }
      var last := if n == 0 then r.at else before[n - 1].at;
      assert n > 0 ==> before[n - 1] == rs[n - 1];
      if r.ip == ip {
        BoundedStep(RecordOf(Run(before), ip), AllowedIn(before, ip, lo, lo + WINDOW_MS), lo, last, r.at);
      }
    }
  }

  /**
   * In a run with a non-decreasing clock every interval of one window holds fewer than two full
   * quotas of an address.
   */
  lemma {:induction false} AtMostTwoWindows(rs: seq<Request>, ip: string, lo: int)
    requires Timed(rs)
    ensures AllowedIn(rs, ip, lo, lo + 60_000) <= 199
  {
    BoundedRun(rs, ip, lo);
  }

  // ----- more than one quota

  /** The j-th request opens a window inside the interval from lo, and the one before it ended inside too. */
  predicate Reopens(rs: seq<Request>, ip: string, lo: int, j: nat)
    requires j < |rs|
  {
    && rs[j].ip == ip && lo <= rs[j].at <= lo + WINDOW_MS
    && RecordOf(Run(rs[..j]), ip).Some? && lo <= RecordOf(Run(rs[..j]), ip).value.resetTime < rs[j].at
  }

  /** Without that the interval holds requests of one window only. */
  predicate Single(record: Option<Record>, seen: nat, lo: int, last: int) {
    match record
    case None => seen == 0
    case Some(r) =>
      && 1 <= r.count <= MAX_REQUESTS && r.resetTime - WINDOW_MS <= last
      && (seen > 0 ==> r.resetTime >= lo)
      && seen <= (if r.resetTime - WINDOW_MS <= lo + WINDOW_MS then r.count else MAX_REQUESTS)
  }

  lemma {:induction false} SingleStep(record: Option<Record>, seen: nat, lo: int, last: int, at: int)
    requires Single(record, seen, lo, last) && last <= at
    requires at < lo ==> seen == 0
    requires !(lo <= at <= lo + WINDOW_MS && record.Some? && lo <= record.value.resetTime < at)
    ensures var (next, allowed) := Admit(record, at);
            Single(Some(next), seen + (if allowed && lo <= at <= lo + WINDOW_MS then 1 else 0), lo, at)
  {
  }

  lemma {:induction false} SingleRun(rs: seq<Request>, ip: string, lo: int)
    requires Timed(rs) && forall j :: 0 <= j < |rs| ==> !Reopens(rs, ip, lo, j)
    ensures Single(RecordOf(Run(rs), ip), AllowedIn(rs, ip, lo, lo + WINDOW_MS), lo,
                   if rs == [] then 0 else rs[|rs| - 1].at)
  {
    if rs != [] {
      var n := |rs| - 1;
      var before, r := rs[..n], rs[n];
      forall j | 0 <= j < n ensures !Reopens(before, ip, lo, j) {
        assert before[..j] == rs[..j] && !Reopens(rs, ip, lo, j);
      }
      SingleRun(before, ip, lo);
      if r.at < lo {
        NoneBefore(before, ip, lo, lo + WINDOW_MS);
      }
      assert n > 0 ==> before[n - 1] == rs[n - 1];
      assert !Reopens(rs, ip, lo, n);
      if r.ip == ip {
        SingleStep(RecordOf(Run(before), ip), AllowedIn(before, ip, lo, lo + WINDOW_MS), lo,
                   if n == 0 then r.at else before[n - 1].at, r.at);
      }
    }
  }

  /**
   * More than one quota gets through an interval only if a window of the address ends inside it and
   * another is opened inside it.
   */
  lemma {:induction false} OverQuotaOnlyAcrossWindows(rs: seq<Request>, ip: string, lo: int)
    requires Timed(rs) && AllowedIn(rs, ip, lo, lo + WINDOW_MS) > MAX_REQUESTS
    ensures exists j :: 0 <= j < |rs| && Reopens(rs, ip, lo, j)
  {
    if forall j :: 0 <= j < |rs| ==> !Reopens(rs, ip, lo, j) {
      SingleRun(rs, ip, lo);
    }
  }

  // ----- the bound is reached

  function Burst(k: nat, ip: string, at: int): seq<Request> {
    if k == 0 then [] else Burst(k - 1, ip, at) + [Request(ip, at)]
  }

  predicate Opens(record: Option<Record>, at: int) {
    record.None? || at > record.value.resetTime
  }

  /** The record after k requests at one time. */
  function BurstRecord(r: Option<Record>, at: int, k: nat): Option<Record> {
    if k == 0 then r
    else if Opens(r, at) then Some(Record(k, at + WINDOW_MS))
    else Some(Record(r.value.count + k, r.value.resetTime))
  }

  predicate Fits(r: Option<Record>, at: int, k: nat) {
    if Opens(r, at) then k <= MAX_REQUESTS else r.value.count + k <= MAX_REQUESTS
  }

  lemma {:induction false} BurstStep(r: Option<Record>, at: int, k: nat)
    requires k > 0 && Fits(r, at, k)
    ensures Admit(BurstRecord(r, at, k - 1), at) == (BurstRecord(r, at, k).value, true)
  {
  }

  /** The record of the address after a run, and how many of its requests were let through in the window from lo. */
  predicate Shows(rs: seq<Request>, ip: string, lo: int, record: Option<Record>, seen: nat) {
    RecordOf(Run(rs), ip) == record && AllowedIn(rs, ip, lo, lo + WINDOW_MS) == seen
  }

  lemma {:induction false} OneMore(rs: seq<Request>, r: Request, lo: int, record: Option<Record>, seen: nat)
    requires Shows(rs, r.ip, lo, record, seen)
    requires lo <= r.at <= lo + WINDOW_MS && Admit(record, r.at).1
    ensures Shows(rs + [r], r.ip, lo, Some(Admit(record, r.at).0), seen + 1)
  {
    Extend(rs, r, r.ip, lo, lo + WINDOW_MS);
  }

  /** A burst inside the open window, or one that opens a new window, is let through up to the quota. */
  lemma {:induction false} BurstIsAllowed(
      rs: seq<Request>, k: nat, ip: string, at: int, lo: int, record: Option<Record>, seen: nat)
    requires lo <= at <= lo + WINDOW_MS && Shows(rs, ip, lo, record, seen) && Fits(record, at, k)
    ensures Shows(rs + Burst(k, ip, at), ip, lo, BurstRecord(record, at, k), seen + k)
  {
    if k == 0 {
      assert rs + [] == rs;
    } else {
      var r, head := Request(ip, at), rs + Burst(k - 1, ip, at);
      BurstIsAllowed(rs, k - 1, ip, at, lo, record, seen);
      BurstStep(record, at, k);
      OneMore(head, r, lo, BurstRecord(record, at, k - 1), seen + k - 1);
      assert rs + Burst(k, ip, at) == head + [r];
    }
  }

  /** One request, the rest of the quota at the very end of its window, a full quota a millisecond later. */
  function WorstRun(ip: string): seq<Request> {
    Burst(1, ip, 0) + Burst(MAX_REQUESTS - 1, ip, WINDOW_MS) + Burst(MAX_REQUESTS, ip, WINDOW_MS + 1)
  }

  lemma {:induction false} BurstTimed(k: nat, ip: string, at: int)
    ensures forall i :: 0 <= i < |Burst(k, ip, at)| ==> Burst(k, ip, at)[i].at == at
  {
    if k > 0 {
      BurstTimed(k - 1, ip, at);
    }
  }

  lemma {:induction false} BoundIsReached(ip: string)
    ensures Timed(WorstRun(ip))
    ensures AllowedIn(WorstRun(ip), ip, 60_000, 120_000) == 199
  {
    WorstRunTimed(ip);
    var lo := WINDOW_MS;
    var first, second := Burst(1, ip, 0), Burst(MAX_REQUESTS - 1, ip, WINDOW_MS);
    FirstRequest(ip);
    BurstIsAllowed(first, MAX_REQUESTS - 1, ip, WINDOW_MS, lo, Some(Record(1, WINDOW_MS)), 0);
    BurstIsAllowed(first + second, MAX_REQUESTS, ip, WINDOW_MS + 1, lo,
                   Some(Record(MAX_REQUESTS, WINDOW_MS)), MAX_REQUESTS - 1);
  }

  lemma {:induction false} WorstRunTimed(ip: string)
    ensures Timed(WorstRun(ip))
  {
    BurstTimed(1, ip, 0);
    BurstTimed(MAX_REQUESTS - 1, ip, WINDOW_MS);
    BurstTimed(MAX_REQUESTS, ip, WINDOW_MS + 1);
  }

  lemma {:induction false} FirstRequest(ip: string)
    ensures Shows(Burst(1, ip, 0), ip, WINDOW_MS, Some(Record(1, WINDOW_MS)), 0)
  {
    BurstTimed(1, ip, 0);
    NoneBefore(Burst(1, ip, 0), ip, WINDOW_MS, WINDOW_MS + WINDOW_MS);
    assert Burst(0, ip, 0) == [];
    Extend([], Request(ip, 0), ip, 0, 0);
    assert [] + [Request(ip, 0)] == Burst(1, ip, 0);
  }

  // ----- refusals

  /** The record counts exactly what was let through since its window started. */
  predicate Counted(rs: seq<Request>, ip: string) {
    match RecordOf(Run(rs), ip)
    case None => true
    case Some(r) =>
      && r.count <= AllowedIn(rs, ip, r.resetTime - WINDOW_MS, r.resetTime)
      && (rs != [] ==> r.resetTime - WINDOW_MS <= rs[|rs| - 1].at)
  }

  lemma {:induction false} CountedRun(rs: seq<Request>, ip: string)
    requires Timed(rs)
    ensures Counted(rs, ip)
  {
    if rs != [] {
      var n := |rs| - 1;
      var before := rs[..n];
      CountedRun(before, ip);
      assert n > 0 ==> before[n - 1] == rs[n - 1];
    }
  }

  /** Counting over a longer interval counts no less. */
  lemma {:induction false} LongerCountsMore(rs: seq<Request>, ip: string, lo: int, hi: int, lo': int, hi': int)
    requires lo' <= lo && hi <= hi'
    ensures AllowedIn(rs, ip, lo, hi) <= AllowedIn(rs, ip, lo', hi')
  {
    if rs != [] {
      LongerCountsMore(rs[..|rs| - 1], ip, lo, hi, lo', hi');
    }
  }

  lemma {:induction false} NoneAfter(rs: seq<Request>, ip: string, lo: int, hi: int, last: int)
    requires forall i :: 0 <= i < |rs| ==> rs[i].at <= last
    requires last <= hi
    ensures AllowedIn(rs, ip, lo, hi) == AllowedIn(rs, ip, lo, last)
  {
    if rs != [] {
      NoneAfter(rs[..|rs| - 1], ip, lo, hi, last);
    }
  }

  /** A request is refused only if a full quota of its address was let through in the window that ends with it. */
  lemma {:induction false} RefusedOnlyAfterQuota(rs: seq<Request>, i: nat)
    requires Timed(rs) && i < |rs| && !Allowed(rs, i)
    ensures AllowedIn(rs[..i], rs[i].ip, rs[i].at - WINDOW_MS, rs[i].at) >= MAX_REQUESTS
  {
    var before, r := rs[..i], rs[i];
    CountedRun(before, r.ip);
    var record := RecordOf(Run(before), r.ip).value;
    NoneAfter(before, r.ip, record.resetTime - WINDOW_MS, record.resetTime, r.at);
    LongerCountsMore(before, r.ip, record.resetTime - WINDOW_MS, r.at, r.at - WINDOW_MS, r.at);
  }

  // ----- addresses do not share a quota

  function Of(rs: seq<Request>, ip: string): seq<Request> {
    if rs == [] then []
    else Of(rs[..|rs| - 1], ip) + if rs[|rs| - 1].ip == ip then [rs[|rs| - 1]] else []
  }

  /** What an address is allowed depends on its own requests alone. */
  lemma {:induction false} AddressesAreIndependent(rs: seq<Request>, ip: string, lo: int, hi: int)
    ensures RecordOf(Run(rs), ip) == RecordOf(Run(Of(rs, ip)), ip)
    ensures AllowedIn(rs, ip, lo, hi) == AllowedIn(Of(rs, ip), ip, lo, hi)
  {
    if rs != [] {
      var n := |rs| - 1;
      AddressesAreIndependent(rs[..n], ip, lo, hi);
      assert rs == rs[..n] + [rs[n]];
      Extend(rs[..n], rs[n], ip, lo, hi);
      if rs[n].ip == ip {
        Extend(Of(rs[..n], ip), rs[n], ip, lo, hi);
        assert Of(rs, ip) == Of(rs[..n], ip) + [rs[n]];
      } else {
        assert Of(rs, ip) == Of(rs[..n], ip);
      }
    }
  }
}

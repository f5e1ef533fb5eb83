/**
 The sliding-window rate limiter (app/middleware/rate_limit.py).

 The Lua script keeps a sorted set of accepted requests that it prunes and lets expire.  The
 module proves what the set decides in terms of the full history of accepted requests.
 A request has two times: the middleware reads its own clock for the timestamp, and Redis runs the
 script later by Redis's clock, from which the key's expiry counts.
 Sorted sets, histories and runs are lists with the newest element first.
 */
module RateLimit {
  import opened Wrappers

  /** A sorted-set element: the score is the acceptance time, the member is "now:random". */
  datatype Entry = Entry(score: real, member: string)

  datatype Config = Config(window: int, limit: int)

  // ---- sorted-set commands ----

  function Size(z: Log<Entry>): nat {
    if z.Empty? then 0 else 1 + Size(z.rest)
  }

  /** The elements with a score above `lo`, which ZREMRANGEBYSCORE -inf lo leaves behind. */
  function Above(z: Log<Entry>, lo: real): Log<Entry> {
    if z.Empty? then Empty
    else if z.head.score > lo then Newer(z.head, Above(z.rest, lo))
    else Above(z.rest, lo)
  }

  function WithoutMember(z: Log<Entry>, m: string): Log<Entry> {
    if z.Empty? then Empty
    else if z.head.member != m then Newer(z.head, WithoutMember(z.rest, m))
    else WithoutMember(z.rest, m)
  }

  function Insert(z: Log<Entry>, e: Entry): Log<Entry> {
    if z.Empty? || z.head.score <= e.score then Newer(e, z)
    else Newer(z.head, Insert(z.rest, e))
  }

  /** ZADD moves an existing member to its new score. */
  function ZAdd(z: Log<Entry>, e: Entry): Log<Entry> {
    Insert(WithoutMember(z, e.member), e)
  }

  /** ZRANGE 0 0: the element with the lowest score. */
  function Oldest(z: Log<Entry>): Entry
    requires z.Newer?
  {
    if z.rest.Empty? then z.head else Oldest(z.rest)
  }

  function Ceil(x: real): (n: int)
    ensures n as real - 1.0 < x <= n as real
  {
    -((-x).Floor)
  }

  // ---- the script ----

  /** A request with timestamp `now`, whose script Redis runs at `at`. */
  datatype Request = Request(now: real, at: real, member: string)

  /** How much later the script runs than the timestamp says, as the two clocks show it. */
  function Lag(r: Request): real {
    r.at - r.now
  }

  /** The key: its sorted set and the deadline set by EXPIRE. */
  datatype Key = Key(zset: Log<Entry>, expireAt: Option<real>)

  datatype Reply = Reply(allowed: bool, remaining: int, retryAfter: int)

  function Live(k: Key, at: real): Log<Entry> {
    if k.expireAt.Some? && k.expireAt.value <= at then Empty else k.zset
  }

  function Script(k: Key, cfg: Config, r: Request): (Key, Reply) {
    var z := Above(Live(k, r.at), r.now - cfg.window as real);
    if Size(z) < cfg.limit then
      (Key(ZAdd(z, Entry(r.now, r.member)), Some(r.at + cfg.window as real)),
       Reply(true, cfg.limit - Size(z) - 1, 0))
    else
      (Key(z, k.expireAt),
       Reply(false, 0, if z.Empty? then 0 else Ceil(Oldest(z).score + cfg.window as real - r.now)))
  }

  // ---- the history of accepted requests ----

  ghost predicate Bounded(h: Log<Entry>, hi: real) {
    h.Newer? ==> h.head.score <= hi && Bounded(h.rest, hi)
  }

  ghost predicate Sorted(h: Log<Entry>) {
    h.Newer? ==> Bounded(h.rest, h.head.score) && Sorted(h.rest)
  }

  ghost predicate Absent(h: Log<Entry>, m: string) {
    h.Newer? ==> h.head.member != m && Absent(h.rest, m)
  }

  ghost predicate DistinctMembers(h: Log<Entry>) {
    h.Newer? ==> Absent(h.rest, h.head.member) && DistinctMembers(h.rest)
  }

  /** The last acceptance of each member: all that a set keyed by member can remember. */
  ghost function Latest(h: Log<Entry>): Log<Entry> {
    if h.Empty? then Empty else Newer(h.head, WithoutMember(Latest(h.rest), h.head.member))
  }

  /** The expiry that the last accepted request set has passed. */
  predicate Expired(cfg: Config, last: Option<Request>, at: real) {
    last.Some? && last.value.at + cfg.window as real <= at
  }

  /** What is left of a history at Redis's time `at`. */
  function Surviving(cfg: Config, h: Log<Entry>, last: Option<Request>, at: real): Log<Entry> {
    if Expired(cfg, last, at) then Empty else h
  }

  /**
   The key agrees from timestamp `since` on with the acceptances `h` since the last expiry, of which
   `last` is the newest; the size bound is what makes the retry hint exact.
   */
  ghost predicate Agrees(k: Key, cfg: Config, h: Log<Entry>, last: Option<Request>, since: real) {
    && Sorted(h) && Bounded(h, since)
    && Sorted(k.zset) && Bounded(k.zset, since)
    && Above(k.zset, since - cfg.window as real) == Above(Latest(h), since - cfg.window as real)
    && k.expireAt == (if last.None? then None else Some(last.value.at + cfg.window as real))
    && (h.Newer? ==> last.Some? && h.head == Entry(last.value.now, last.value.member))
    && Size(k.zset) <= (if cfg.limit < 0 then 0 else cfg.limit)
  }

  // ---- lemmas about filtering ----

  lemma {:induction false} BoundedUp(z: Log<Entry>, lo: real, hi: real)
    requires Bounded(z, lo) && lo <= hi
    ensures Bounded(z, hi)
  {
    if z.Newer? { BoundedUp(z.rest, lo, hi); }
  }

  lemma {:induction false} AboveTwice(z: Log<Entry>, lo: real, hi: real)
    requires lo <= hi
    ensures Above(Above(z, lo), hi) == Above(z, hi)
  {
    if z.Newer? { AboveTwice(z.rest, lo, hi); }
  }

  lemma {:induction false} AboveKeeps(z: Log<Entry>, lo: real, hi: real)
    ensures Bounded(z, hi) ==> Bounded(Above(z, lo), hi)
    ensures Sorted(z) ==> Sorted(Above(z, lo))
    ensures Size(Above(z, lo)) <= Size(z)
  {
    if z.Newer? {
      AboveKeeps(z.rest, lo, hi);
      AboveKeeps(z.rest, lo, z.head.score);
    }
  }

  lemma {:induction false} WithoutKeeps(z: Log<Entry>, m: string, hi: real)
    ensures Bounded(z, hi) ==> Bounded(WithoutMember(z, m), hi)
    ensures Sorted(z) ==> Sorted(WithoutMember(z, m))
    ensures Size(WithoutMember(z, m)) <= Size(z)
    ensures Size(WithoutMember(z, m)) == Size(z) <==> Absent(z, m)
    ensures Absent(z, m) ==> WithoutMember(z, m) == z
  {
    if z.Newer? {
      WithoutKeeps(z.rest, m, hi);
      WithoutKeeps(z.rest, m, z.head.score);
    }
  }

  lemma {:induction false} LatestKeeps(h: Log<Entry>, hi: real)
    ensures Bounded(h, hi) ==> Bounded(Latest(h), hi)
    ensures Size(Latest(h)) <= Size(h)
  {
    if h.Newer? {
      LatestKeeps(h.rest, hi);
      WithoutKeeps(Latest(h.rest), h.head.member, hi);
    }
  }

  lemma {:induction false} AboveNothing(z: Log<Entry>, lo: real)
    requires Bounded(z, lo)
    ensures Above(z, lo) == Empty
  {
    if z.Newer? { AboveNothing(z.rest, lo); }
  }

  lemma {:induction false} AboveWithout(z: Log<Entry>, m: string, lo: real)
    ensures Above(WithoutMember(z, m), lo) == WithoutMember(Above(z, lo), m)
  {
    if z.Newer? { AboveWithout(z.rest, m, lo); }
  }

  // ---- the script refines the history ----

  /** What the script has in hand after pruning is exactly the window's part of what survives. */
  lemma PrunedIsWindow(k: Key, cfg: Config, h: Log<Entry>, last: Option<Request>, since: real, now: real, at: real)
    requires Agrees(k, cfg, h, last, since) && since <= now
    ensures Above(Live(k, at), now - cfg.window as real)
         == Above(Latest(Surviving(cfg, h, last, at)), now - cfg.window as real)
  {
    var w := cfg.window as real;
    AboveTwice(k.zset, since - w, now - w);
    AboveTwice(Latest(h), since - w, now - w);
  }

  lemma ScriptDecides(k: Key, cfg: Config, h: Log<Entry>, last: Option<Request>, since: real, r: Request)
    requires Agrees(k, cfg, h, last, since) && since <= r.now
    ensures var count := Size(Above(Latest(Surviving(cfg, h, last, r.at)), r.now - cfg.window as real));
            var reply := Script(k, cfg, r).1;
            && (reply.allowed <==> count < cfg.limit)
            && (reply.allowed ==> reply.remaining == cfg.limit - (count + 1))
  {
    PrunedIsWindow(k, cfg, h, last, since, r.now, r.at);
  }

  /** One call of the script keeps the agreement, with the accepted request added to what survives. */
  lemma ScriptKeepsAgreement(k: Key, cfg: Config, h: Log<Entry>, last: Option<Request>, since: real, r: Request)
    requires Agrees(k, cfg, h, last, since) && since <= r.now
    ensures var (k', reply) := Script(k, cfg, r);
            var left := Surviving(cfg, h, last, r.at);
            if reply.allowed then Agrees(k', cfg, Newer(Entry(r.now, r.member), left), Some(r), r.now)
            else Agrees(k', cfg, left, last, r.now)
  {
    var lo := r.now - cfg.window as real;
    var left := Surviving(cfg, h, last, r.at);
    var z := Above(Live(k, r.at), lo);
    PrunedIsWindow(k, cfg, h, last, since, r.now, r.at);
    BoundedUp(h, since, r.now);
    BoundedUp(k.zset, since, r.now);
    AboveKeeps(k.zset, lo, r.now);
    WithoutKeeps(z, r.member, r.now);
    AboveWithout(z, r.member, lo);
    AboveWithout(Latest(left), r.member, lo);
    AboveTwice(Latest(left), lo, lo);
    var rest := WithoutMember(z, r.member);
    assert rest.Newer? ==> rest.head.score <= r.now;
  }

  // ---- what the set counts, and when that is the true count ----

  lemma {:induction false} LatestOfWindow(h: Log<Entry>, lo: real)
    requires Sorted(h)
    ensures Above(Latest(h), lo) == Latest(Above(h, lo))
  {
    if h.Newer? {
      LatestOfWindow(h.rest, lo);
      AboveWithout(Latest(h.rest), h.head.member, lo);
      if h.head.score <= lo {
        BoundedUp(h.rest, h.head.score, lo);
        AboveNothing(h.rest, lo);
      }
    }
  }

  lemma {:induction false} LatestKeepsAllIffDistinct(h: Log<Entry>)
    ensures Size(Latest(h)) == Size(h) <==> DistinctMembers(h)
    ensures DistinctMembers(h) ==> Latest(h) == h
  {
    if h.Newer? {
      LatestKeepsAllIffDistinct(h.rest);
      LatestKeeps(h.rest, 0.0);
      WithoutKeeps(Latest(h.rest), h.head.member, 0.0);
    }
  }

  /**
   The count the decision rests on is the number of acceptances in the window exactly when the
   members of those acceptances are pairwise distinct.
   */
  lemma CountIsExactIffMembersDistinct(h: Log<Entry>, lo: real)
    requires Sorted(h)
    ensures Size(Above(Latest(h), lo)) == Size(Above(h, lo)) <==> DistinctMembers(Above(h, lo))
  {
    LatestOfWindow(h, lo);
    LatestKeepsAllIffDistinct(Above(h, lo));
  }

  // ---- whole runs ----

  const EMPTY_KEY := Key(Empty, None)

  function KeyAfter(cfg: Config, rs: Log<Request>): Key {
    if rs.Empty? then EMPTY_KEY else Script(KeyAfter(cfg, rs.rest), cfg, rs.head).0
  }

  predicate IsAccepted(cfg: Config, rs: Log<Request>, r: Request) {
    Script(KeyAfter(cfg, rs), cfg, r).1.allowed
  }

  /** The requests of a run that were let through. */
  function Accepted(cfg: Config, rs: Log<Request>): Log<Entry> {
    if rs.Empty? then Empty
    else if IsAccepted(cfg, rs.rest, rs.head)
    then Newer(Entry(rs.head.now, rs.head.member), Accepted(cfg, rs.rest))
    else Accepted(cfg, rs.rest)
  }

  function LastAccepted(cfg: Config, rs: Log<Request>): Option<Request> {
    if rs.Empty? then None
    else if IsAccepted(cfg, rs.rest, rs.head) then Some(rs.head)
    else LastAccepted(cfg, rs.rest)
  }

  /** The acceptances since the key last expired. */
  function Remembered(cfg: Config, rs: Log<Request>): Log<Entry> {
    if rs.Empty? then Empty
    else
      var left := Surviving(cfg, Remembered(cfg, rs.rest), LastAccepted(cfg, rs.rest), rs.head.at);
      if IsAccepted(cfg, rs.rest, rs.head) then Newer(Entry(rs.head.now, rs.head.member), left) else left
  }

  /** The timestamps of a run never go back and have not passed `now`. */
  ghost predicate InOrder(rs: Log<Request>, now: real) {
    rs.Newer? ==> rs.head.now <= now && InOrder(rs.rest, rs.head.now)
  }

  lemma {:induction false} RunAgrees(cfg: Config, rs: Log<Request>, now: real) returns (since: real)
    requires InOrder(rs, now)
    ensures since <= now && (rs.Newer? ==> since == rs.head.now)
    ensures Agrees(KeyAfter(cfg, rs), cfg, Remembered(cfg, rs), LastAccepted(cfg, rs), since)
  {
    since := now;
    if rs.Newer? {
      var t := RunAgrees(cfg, rs.rest, rs.head.now);
      ScriptKeepsAgreement(KeyAfter(cfg, rs.rest), cfg, Remembered(cfg, rs.rest), LastAccepted(cfg, rs.rest), t,
                           rs.head);
      since := rs.head.now;
    }
  }

  /**
   After any run with nondecreasing timestamps, whatever the lags, a request is accepted exactly when
   fewer than `limit` different members were accepted in (now - window, now] since the key last expired.
   */
  lemma DecisionIsRemembered(cfg: Config, rs: Log<Request>, r: Request)
    requires InOrder(rs, r.now)
    ensures var left := Surviving(cfg, Remembered(cfg, rs), LastAccepted(cfg, rs), r.at);
            var count := Size(Above(Latest(left), r.now - cfg.window as real));
            var reply := Script(KeyAfter(cfg, rs), cfg, r).1;
            && (reply.allowed <==> count < cfg.limit)
            && (reply.allowed ==> reply.remaining == cfg.limit - (count + 1))
  {
    var since := RunAgrees(cfg, rs, r.now);
    ScriptDecides(KeyAfter(cfg, rs), cfg, Remembered(cfg, rs), LastAccepted(cfg, rs), since, r);
  }

  // ---- when the expiry is observable ----

  /** Expiry at this request hides an acceptance that its window still holds. */
  predicate Hides(cfg: Config, last: Request, r: Request) {
    Expired(cfg, Some(last), r.at) && r.now - cfg.window as real < last.now
  }

  /** The key's expiry changes the window's part of the history exactly when it hides the last acceptance. */
  lemma ExpiryHidesIff(cfg: Config, h: Log<Entry>, last: Request, r: Request)
    requires Sorted(h) && h.Newer? && h.head == Entry(last.now, last.member)
    ensures var lo := r.now - cfg.window as real;
            Above(Surviving(cfg, h, Some(last), r.at), lo) == Above(h, lo) <==> !Hides(cfg, last, r)
  {
    var lo := r.now - cfg.window as real;
    if last.now <= lo {
      BoundedUp(h.rest, h.head.score, lo);
      AboveNothing(h, lo);
    }
  }

  /** A request with this lag and timestamp, which is not before that of the accepted one, finds it hidden. */
  predicate HidesAt(cfg: Config, last: Request, lag: real, member: string, now: real) {
    last.now <= now && Hides(cfg, last, Request(now, now + lag, member))
  }

  /**
   A request with a given lag can find an acceptance hidden, at a timestamp not before it, exactly when
   its lag is larger than that of the accepted request.
   */
  lemma ExpiryCanHideIff(cfg: Config, last: Request, lag: real, member: string)
    requires cfg.window > 0
    ensures (exists now: real :: HidesAt(cfg, last, lag, member, now)) <==> lag > Lag(last)
  {
    if lag > Lag(last) {
      var w := cfg.window as real;
      var now := if lag - Lag(last) >= w then last.now else last.at + w - lag;
      assert HidesAt(cfg, last, lag, member, now);
    }
  }

  /** No request of the run lags more than the last one accepted before it. */
  ghost predicate Timely(cfg: Config, rs: Log<Request>) {
    rs.Newer? ==> NotLater(cfg, rs.rest, rs.head) && Timely(cfg, rs.rest)
  }

  predicate NotLater(cfg: Config, rs: Log<Request>, r: Request) {
    var last := LastAccepted(cfg, rs);
    last.Some? ==> Lag(r) <= Lag(last.value)
  }

  lemma {:induction false} AcceptedIsSorted(cfg: Config, rs: Log<Request>, now: real)
    requires InOrder(rs, now)
    ensures Sorted(Accepted(cfg, rs)) && Bounded(Accepted(cfg, rs), now)
  {
    if rs.Newer? {
      AcceptedIsSorted(cfg, rs.rest, rs.head.now);
      BoundedUp(Accepted(cfg, rs.rest), rs.head.now, now);
    }
  }

  lemma {:induction false} LastIsHead(cfg: Config, rs: Log<Request>)
    ensures var h, last := Accepted(cfg, rs), LastAccepted(cfg, rs);
            && (h.Newer? <==> last.Some?)
            && (last.Some? ==> h.head == Entry(last.value.now, last.value.member))
  {
    if rs.Newer? {
      LastIsHead(cfg, rs.rest);
    }
  }

  /** In a timely run what survives has the same acceptances in the window as the full history. */
  lemma SurvivingWindow(cfg: Config, rs: Log<Request>, r: Request, kept: Log<Entry>)
    requires InOrder(rs, r.now) && NotLater(cfg, rs, r)
    requires Above(kept, r.now - cfg.window as real) == Above(Accepted(cfg, rs), r.now - cfg.window as real)
    ensures Above(Surviving(cfg, kept, LastAccepted(cfg, rs), r.at), r.now - cfg.window as real)
         == Above(Accepted(cfg, rs), r.now - cfg.window as real)
  {
    var last := LastAccepted(cfg, rs);
    AcceptedIsSorted(cfg, rs, r.now);
    LastIsHead(cfg, rs);
    if Expired(cfg, last, r.at) {
      ExpiryHidesIff(cfg, Accepted(cfg, rs), last.value, r);
    }
  }

  lemma {:induction false} RememberedWindow(cfg: Config, rs: Log<Request>, now: real)
    requires InOrder(rs, now) && Timely(cfg, rs)
    ensures Above(Remembered(cfg, rs), now - cfg.window as real) == Above(Accepted(cfg, rs), now - cfg.window as real)
  {
    if rs.Newer? {
      var r, w := rs.head, cfg.window as real;
      var before := Remembered(cfg, rs.rest);
      RememberedWindow(cfg, rs.rest, r.now);
      SurvivingWindow(cfg, rs.rest, r, before);
      var left := Surviving(cfg, before, LastAccepted(cfg, rs.rest), r.at);
      AboveTwice(left, r.now - w, now - w);
      AboveTwice(Accepted(cfg, rs.rest), r.now - w, now - w);
    }
  }

  lemma {:induction false} RememberedIsSorted(cfg: Config, rs: Log<Request>, now: real)
    requires InOrder(rs, now)
    ensures Sorted(Remembered(cfg, rs))
  {
    var since := RunAgrees(cfg, rs, now);
  }

  /**
   Refinement: in a run with nondecreasing timestamps in which no request lags more than the last one
   accepted before it, a request is accepted exactly when fewer than `limit` different members were
   accepted in (now - window, now]; if those members are distinct, that is the number of acceptances
   there, and `remaining` is what is left of the limit.  Neither pruning nor expiry is observable then.
   */
  lemma DecisionIsHistory(cfg: Config, rs: Log<Request>, r: Request)
    requires InOrder(rs, r.now) && Timely(cfg, rs) && NotLater(cfg, rs, r)
    ensures var h := Accepted(cfg, rs);
            var lo := r.now - cfg.window as real;
            var reply := Script(KeyAfter(cfg, rs), cfg, r).1;
            && (reply.allowed <==> Size(Above(Latest(h), lo)) < cfg.limit)
            && (DistinctMembers(Above(h, lo)) ==>
                  && (reply.allowed <==> Size(Above(h, lo)) < cfg.limit)
                  && (reply.allowed ==> reply.remaining == cfg.limit - (Size(Above(h, lo)) + 1)))
  {
    var lo := r.now - cfg.window as real;
    var left := Surviving(cfg, Remembered(cfg, rs), LastAccepted(cfg, rs), r.at);
    DecisionIsRemembered(cfg, rs, r);
    RememberedWindow(cfg, rs, r.now);
    SurvivingWindow(cfg, rs, r, Remembered(cfg, rs));
    RememberedIsSorted(cfg, rs, r.now);
    AcceptedIsSorted(cfg, rs, r.now);
    LatestOfWindow(left, lo);
    LatestOfWindow(Accepted(cfg, rs), lo);
    CountIsExactIffMembersDistinct(Accepted(cfg, rs), lo);
  }

  /** The number of acceptances in the half-open interval (lo, hi]. */
  function Within(h: Log<Entry>, lo: real, hi: real): nat {
    if h.Empty? then 0
    else (if lo < h.head.score <= hi then 1 else 0) + Within(h.rest, lo, hi)
  }

  lemma {:induction false} WithinIsAbove(h: Log<Entry>, lo: real, hi: real)
    requires Bounded(h, hi)
    ensures Within(h, lo, hi) == Size(Above(h, lo))
  {
    if h.Newer? { WithinIsAbove(h.rest, lo, hi); }
  }

  lemma {:induction false} AboveDistinct(h: Log<Entry>, lo: real, m: string)
    ensures Absent(h, m) ==> Absent(Above(h, lo), m)
    ensures DistinctMembers(h) ==> DistinctMembers(Above(h, lo))
  {
    if h.Newer? {
      AboveDistinct(h.rest, lo, m);
      AboveDistinct(h.rest, lo, h.head.member);
    }
  }

  /** In a timely run no window of the configured length, wherever it lies, holds more than `limit` acceptances. */
  lemma {:induction false} NoWindowExceedsLimit(cfg: Config, rs: Log<Request>, now: real, hi: real)
    requires InOrder(rs, now) && Timely(cfg, rs) && cfg.limit >= 0
    requires DistinctMembers(Accepted(cfg, rs))
    ensures Within(Accepted(cfg, rs), hi - cfg.window as real, hi) <= cfg.limit
  {
    if rs.Newer? {
      var h, r := Accepted(cfg, rs.rest), rs.head;
      NoWindowExceedsLimit(cfg, rs.rest, r.now, hi);
      if Accepted(cfg, rs) != h && r.now <= hi {
        var lo, recent := hi - cfg.window as real, r.now - cfg.window as real;
        AcceptedIsSorted(cfg, rs.rest, r.now);
        BoundedUp(h, r.now, hi);
        WithinIsAbove(h, lo, hi);
        AboveTwice(h, recent, lo);
        AboveKeeps(Above(h, recent), lo, hi);
        AboveDistinct(h, recent, "");
        DecisionIsHistory(cfg, rs.rest, r);
      }
    }
  }

  /**
   Without that condition the limit is exceeded: with limit 1, a request that lags by some d up to the
   window after one without lag finds the key just expired, and both lie in one window.
   */
  lemma ExpiryExceedsLimit(cfg: Config, first: Request, second: Request, d: real)
    requires cfg.limit == 1 && 0.0 < d <= cfg.window as real && first.member != second.member
    requires Lag(first) == 0.0 && Lag(second) == d && second.at == first.at + cfg.window as real
    ensures var rs := Newer(second, Newer(first, Empty));
            && InOrder(rs, second.now) && DistinctMembers(Accepted(cfg, rs))
            && Within(Accepted(cfg, rs), second.now - cfg.window as real, second.now) == 2
  {
    var one := Newer(first, Empty);
    assert KeyAfter(cfg, one) == Key(Newer(Entry(first.now, first.member), Empty), Some(second.at));
    assert Accepted(cfg, one) == Newer(Entry(first.now, first.member), Empty);
    assert IsAccepted(cfg, one, second);
    assert Within(Accepted(cfg, one), second.now - cfg.window as real, second.now) == 1;
  }

  function Copies(r: Request, n: nat): Log<Request> {
    if n == 0 then Empty else Newer(r, Copies(r, n - 1))
  }

  lemma {:induction false} CollidingRun(cfg: Config, r: Request, n: nat)
    requires cfg.window > 0
    ensures var single := Newer(Entry(r.now, r.member), Empty);
            KeyAfter(cfg, Copies(r, n)) ==
            if n == 0 || cfg.limit <= 0 then EMPTY_KEY else Key(single, Some(r.at + cfg.window as real))
    ensures Within(Accepted(cfg, Copies(r, n)), r.now - cfg.window as real, r.now)
         == if cfg.limit >= 2 then n else if n == 0 || cfg.limit <= 0 then 0 else 1
  {
    if n > 0 {
      CollidingRun(cfg, r, n - 1);
      var single := Newer(Entry(r.now, r.member), Empty);
      assert Above(single, r.now - cfg.window as real) == single;
      assert WithoutMember(single, r.member) == Empty;
      assert Size(single) == 1 && Size(Log<Entry>.Empty) == 0;
      var allowed := if n == 1 then cfg.limit >= 1 else cfg.limit >= 2;
      assert IsAccepted(cfg, Copies(r, n - 1), r) == allowed;
      assert Accepted(cfg, Copies(r, n)) ==
             if allowed then Newer(Entry(r.now, r.member), Accepted(cfg, Copies(r, n - 1)))
             else Accepted(cfg, Copies(r, n - 1));
    }
  }

  /**
   Requests that share a member count once: any number of them at one clock value is accepted as soon
   as the limit is at least 2, so the limit is exceeded by any run of more than `limit` of them.
   */
  lemma CollidingMembersExceedLimit(cfg: Config, r: Request, n: nat)
    requires cfg.window > 0
    ensures Within(Accepted(cfg, Copies(r, n)), r.now - cfg.window as real, r.now) > cfg.limit
            <==> (cfg.limit >= 2 && n > cfg.limit) || cfg.limit < 0
  {
    CollidingRun(cfg, r, n);
  }

  // ---- the retry hint ----

  lemma {:induction false} OldestDecides(z: Log<Entry>, lo: real)
    requires z.Newer? && Sorted(z)
    ensures Oldest(z).score > lo ==> Above(z, lo) == z
    ensures Oldest(z).score <= lo ==> Size(Above(z, lo)) < Size(z)
    ensures Oldest(z).score <= z.head.score
  {
    if z.rest.Newer? {
      OldestDecides(z.rest, lo);
    }
  }

  lemma {:induction false} OldestIsAbove(z: Log<Entry>, lo: real)
    requires Above(z, lo).Newer?
    ensures Oldest(Above(z, lo)).score > lo
  {
    if Above(z.rest, lo).Newer? { OldestIsAbove(z.rest, lo); }
  }

  /** A rejected request found the limit reached; its hint is the time until the oldest acceptance leaves. */
  lemma RejectionHint(k: Key, cfg: Config, h: Log<Entry>, last: Option<Request>, since: real, r: Request)
    requires cfg.limit >= 1
    requires Agrees(k, cfg, h, last, since) && since <= r.now && !Script(k, cfg, r).1.allowed
    ensures var z := Above(Latest(h), r.now - cfg.window as real);
            && !Expired(cfg, last, r.at) && h.Newer? && z.Newer? && Size(z) == cfg.limit && Sorted(z)
            && Oldest(z).score > r.now - cfg.window as real
            && Script(k, cfg, r).1.retryAfter == Ceil(Oldest(z).score + cfg.window as real - r.now)
  {
    var lo := r.now - cfg.window as real;
    PrunedIsWindow(k, cfg, h, last, since, r.now, r.at);
    AboveKeeps(k.zset, lo, r.now);
    OldestIsAbove(k.zset, lo);
  }

  /** With nothing accepted in between, the count of a later request whose key has not expired. */
  lemma LaterDecision(k: Key, cfg: Config, h: Log<Entry>, last: Option<Request>, since: real, z: Log<Entry>,
                      from: real, r: Request)
    requires Agrees(k, cfg, h, last, since) && since <= r.now && from <= r.now
    requires z == Above(Latest(h), from - cfg.window as real) && z.Newer? && Sorted(z)
    requires Size(z) == cfg.limit
    ensures Oldest(z).score <= r.now - cfg.window as real ==> Script(k, cfg, r).1.allowed
    ensures Oldest(z).score > r.now - cfg.window as real && !Expired(cfg, last, r.at) ==>
              !Script(k, cfg, r).1.allowed
  {
    var lo := r.now - cfg.window as real;
    PrunedIsWindow(k, cfg, h, last, since, r.now, r.at);
    AboveTwice(Latest(h), from - cfg.window as real, lo);
    OldestDecides(z, lo);
  }

  /** The newest acceptance is at least as new as any counted one. */
  lemma {:induction false} CountedIsNotNewer(h: Log<Entry>, lo: real)
    requires Sorted(h) && h.Newer? && Above(Latest(h), lo).Newer?
    ensures Oldest(Above(Latest(h), lo)).score <= h.head.score
  {
    LatestKeeps(h, h.head.score);
    AboveKeeps(Latest(h), lo, h.head.score);
    OldestIsBounded(Above(Latest(h), lo), h.head.score);
  }

  lemma {:induction false} OldestIsBounded(z: Log<Entry>, hi: real)
    requires z.Newer? && Bounded(z, hi)
    ensures Oldest(z).score <= hi
  {
    if z.rest.Newer? {
      OldestIsBounded(z.rest, hi);
    }
  }

  /**
   The retry hint of a rejection is exact: it is at least one second; as long as nothing else is
   accepted, a request that many seconds later is accepted, and one a second earlier is rejected unless
   it lags more than the last accepted request, however many rejected requests come in between (`later`
   and `earlier` are the keys they leave).
   */
  lemma RetryAfterIsExact(k: Key, cfg: Config, h: Log<Entry>, last: Option<Request>, t: real, r: Request,
                          later: Key, tLater: real, retry: Request, earlier: Key, tEarlier: real, hasty: Request)
    requires cfg.limit >= 1
    requires Agrees(k, cfg, h, last, t) && t <= r.now && !Script(k, cfg, r).1.allowed
    requires Agrees(later, cfg, h, last, tLater) && tLater <= retry.now
    requires Agrees(earlier, cfg, h, last, tEarlier) && tEarlier <= hasty.now
    requires retry.now == r.now + Script(k, cfg, r).1.retryAfter as real && hasty.now == retry.now - 1.0
    ensures Script(k, cfg, r).1.retryAfter >= 1
    ensures Script(later, cfg, retry).1.allowed
    ensures last.Some? && (Lag(hasty) <= Lag(last.value) ==> !Script(earlier, cfg, hasty).1.allowed)
  {
    var z := Above(Latest(h), r.now - cfg.window as real);
    RejectionHint(k, cfg, h, last, t, r);
    CountedIsNotNewer(h, r.now - cfg.window as real);
    LaterDecision(later, cfg, h, last, tLater, z, r.now, retry);
    LaterDecision(earlier, cfg, h, last, tEarlier, z, r.now, hasty);
  }

  // ---- the middleware ----

  lemma AgreesLater(k: Key, cfg: Config, h: Log<Entry>, last: Option<Request>, since: real, now: real)
    requires Agrees(k, cfg, h, last, since) && since <= now
    ensures Agrees(k, cfg, h, last, now)
  {
    BoundedUp(h, since, now);
    BoundedUp(k.zset, since, now);
    AboveTwice(k.zset, since - cfg.window as real, now - cfg.window as real);
    AboveTwice(Latest(h), since - cfg.window as real, now - cfg.window as real);
  }

  /** The call of the script answers, or it raises, with or without the script having run. */
  datatype RedisCall = Answers | Raises(ran: bool)

  /**
   One rate-limit key of the middleware.  For the proof, `remembered` are the requests that the script
   has recorded since the key last expired, `last` is the newest of them, and `clock` is the timestamp of
   the newest request.
   */
  class Limiter {
    const cfg: Config
    var key: Key
    ghost var remembered: Log<Entry>
    ghost var last: Option<Request>
    ghost var clock: real

    ghost predicate Valid()
      reads this
    {
      Agrees(key, cfg, remembered, last, clock)
    }

    constructor (cfg: Config, ghost now: real)
      ensures Valid() && this.cfg == cfg && remembered == Empty && last == None && clock == now
    {
      this.cfg := cfg;
      key := EMPTY_KEY;
      remembered := Empty;
      last := None;
      clock := now;
    }

    /** The script. */
    method Eval(r: Request) returns (reply: Reply)
      requires Valid() && clock <= r.now
      modifies this
      ensures Valid() && clock == r.now && reply == Script(old(key), cfg, r).1
      ensures var left := Surviving(cfg, old(remembered), old(last), r.at);
              var count := Size(Above(Latest(left), r.now - cfg.window as real));
              && reply.allowed == (count < cfg.limit)
              && (reply.allowed ==> reply.remaining == cfg.limit - count - 1)
              && (!reply.allowed ==> reply.remaining == 0)
              && remembered == (if reply.allowed then Newer(Entry(r.now, r.member), left) else left)
              && last == (if reply.allowed then Some(r) else old(last))
    {
      PrunedIsWindow(key, cfg, remembered, last, clock, r.now, r.at);
      ScriptKeepsAgreement(key, cfg, remembered, last, clock, r);
      clock := r.now;
      remembered := Surviving(cfg, remembered, last, r.at);
      key := Key(Above(Live(key, r.at), r.now - cfg.window as real), key.expireAt);
      var count := Size(key.zset);
      if count < cfg.limit {
        key := Key(ZAdd(key.zset, Entry(r.now, r.member)), Some(r.at + cfg.window as real));
        remembered := Newer(Entry(r.now, r.member), remembered);
        last := Some(r);
        return Reply(true, cfg.limit - count - 1, 0);
      }
      var retryAfter := 0;
      if key.zset.Newer? {
        retryAfter := Ceil(Oldest(key.zset).score + cfg.window as real - r.now);
      }
      return Reply(false, 0, retryAfter);
    }

    /**
     `_check_rate_limit`: when the call raises the request passes, whatever the script decided; if it had
     run, it has recorded the request as far as the limit allowed.
     */
    method CheckRateLimit(r: Request, call: RedisCall)
      returns (allowed: bool, remaining: int, retryAfter: int)
      requires Valid() && clock <= r.now
      modifies this
      ensures Valid() && clock == r.now
      ensures call.Raises? ==> allowed && remaining == cfg.limit && retryAfter == 0
      ensures call == Raises(false) ==> key == old(key) && remembered == old(remembered) && last == old(last)
      ensures var left := Surviving(cfg, old(remembered), old(last), r.at);
              var count := Size(Above(Latest(left), r.now - cfg.window as real));
              && (call != Raises(false) ==>
                    && remembered == (if count < cfg.limit then Newer(Entry(r.now, r.member), left) else left)
                    && last == (if count < cfg.limit then Some(r) else old(last)))
              && (call == Answers ==>
                    && (allowed <==> count < cfg.limit)
                    && remaining == (if allowed then cfg.limit - 1 - count else 0)
                    && retryAfter == (if allowed then 0 else Script(old(key), cfg, r).1.retryAfter))
    {
      if call == Raises(false) {
        AgreesLater(key, cfg, remembered, last, clock, r.now);
        clock := r.now;
        return true, cfg.limit, 0;
      }
      var reply := Eval(r);
      if call == Raises(true) {
        return true, cfg.limit, 0;
      }
      return reply.allowed, if reply.remaining > 0 then reply.remaining else 0,
             if reply.allowed then 0 else reply.retryAfter;
    }
  }
}

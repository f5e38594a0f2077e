// The controller's leaky buckets of failed authentication attempts (src/controller.c), times and penalties as reals,
// in a table whose entries expire and may be evicted (src/libutil/hash.c).
module ControllerThrottle {

  type Address(==, !new)

  const DEFAULT_AUTH_FAILURE_WINDOW: real := 60.0
  const AUTH_FAILURES_CACHE_SIZE: nat := 1024

  /** max_auth_failures and auth_failure_window; the throttle is off when no failure is allowed. */
  datatype Limit = Limit(max: nat, window: real)

  /** struct rspamd_controller_auth_bucket, with the creation time its entry in the table has. */
  datatype Bucket = Bucket(penalty: real, lastUpdate: real, created: int)

  type Buckets = map<Address, Bucket>

  ghost predicate Usable(limit: Limit) {
    limit.max > 0 ==> limit.window > 0.0
  }

  function Leaked(limit: Limit, elapsed: real): real
    requires limit.window > 0.0
  {
    elapsed * (limit.max as real / limit.window)
  }

  /** rspamd_controller_auth_decay. */
  function Decay(limit: Limit, bucket: Bucket, now: real): real
    requires limit.window > 0.0
  {
    var elapsed := now - bucket.lastUpdate;
    if elapsed <= 0.0 then bucket.penalty
    else if bucket.penalty - Leaked(limit, elapsed) < 0.0 then 0.0
    else bucket.penalty - Leaked(limit, elapsed)
  }

  lemma LeakedSum(limit: Limit, x: real, y: real)
    requires limit.window > 0.0
    ensures Leaked(limit, x + y) == Leaked(limit, x) + Leaked(limit, y)
  {
    var r := limit.max as real / limit.window;
    assert (x + y) * r == x * r + y * r;
  }

  lemma LeakedSign(limit: Limit, x: real)
    requires limit.window > 0.0 && x >= 0.0
    ensures Leaked(limit, x) >= 0.0
  {
    var r := limit.max as real / limit.window;
    assert r >= 0.0;
    assert x * r >= 0.0;
  }

  lemma LeakedByHand(limit: Limit, x: real)
    requires limit.window > 0.0
    ensures Leaked(limit, x) == limit.max as real * x / limit.window
  {
    var m, w := limit.max as real, limit.window;
    var r := m / w;
    assert m == r * w;
    assert m * x == (x * r) * w;
    assert (x * r) * w / w == x * r;
  }

  lemma LeakedWindow(limit: Limit)
    requires limit.window > 0.0
    ensures Leaked(limit, limit.window) == limit.max as real
  {
  }

  /** Draining a bucket now and again later leaves what draining it later alone would. */
  lemma DecayInSteps(limit: Limit, bucket: Bucket, t: real, now: real)
    requires limit.window > 0.0 && bucket.penalty >= 0.0 && bucket.lastUpdate <= t <= now
    ensures Decay(limit, bucket.(penalty := Decay(limit, bucket, t), lastUpdate := t), now) == Decay(limit, bucket, now)
  {
    LeakedSum(limit, t - bucket.lastUpdate, now - t);
    LeakedSign(limit, t - bucket.lastUpdate);
    LeakedSign(limit, now - t);
    assert (t - bucket.lastUpdate) + (now - t) == now - bucket.lastUpdate;
  }

  /** A clock that went back drains nothing. */
  lemma NoCreditBackwards(limit: Limit, bucket: Bucket, now: real)
    requires limit.window > 0.0 && now <= bucket.lastUpdate
    ensures Decay(limit, bucket, now) == bucket.penalty
  {
  }

  /** A full bucket drains in exactly the window. */
  lemma FullDrainsInWindow(limit: Limit, since: real, created: int, now: real)
    requires limit.window > 0.0 && limit.max > 0
    ensures Decay(limit, Bucket(limit.max as real, since, created), now) == 0.0 <==> now - since >= limit.window
  {
    var over := now - since - limit.window;
    LeakedWindow(limit);
    LeakedSum(limit, limit.window, over);
    assert limit.window + over == now - since;
    var r := limit.max as real / limit.window;
    assert r > 0.0;
    assert over < 0.0 ==> over * r < 0.0;
    assert over >= 0.0 ==> over * r >= 0.0;
  }

  // ---- The table of buckets --------------------------------------------------------------------------

  /** (time_t) t */
  function Seconds(t: real): int {
    if t >= 0.0 then t.Floor else -((-t).Floor)
  }

  lemma SecondsRise(s: real, t: real)
    requires s <= t
    ensures Seconds(s) <= Seconds(t)
  {
  }

  /** (unsigned int) window: an entry lives that many seconds, or for ever if that is none. */
  function Ttl(limit: Limit): nat
    requires limit.window > 0.0
  {
    limit.window.Floor
  }

  /** The test of rspamd_lru_hash_lookup. */
  predicate Expired(limit: Limit, bucket: Bucket, now: real)
    requires limit.window > 0.0
  {
    Ttl(limit) != 0 && Seconds(now) - bucket.created > Ttl(limit)
  }

  /** A lookup finds the address's bucket. */
  predicate Known(limit: Limit, buckets: Buckets, a: Address, now: real)
    requires limit.window > 0.0
  {
    a in buckets && !Expired(limit, buckets[a], now)
  }

  /** rspamd_lru_hash_lookup: an expired entry goes. */
  function Looked(limit: Limit, buckets: Buckets, a: Address, now: real): Buckets
    requires limit.window > 0.0
  {
    if Known(limit, buckets, a, now) then buckets else buckets - {a}
  }

  /** rspamd_lru_hash_insert of a new entry: a table that is full then drops others, whichever these are. */
  function Inserted(buckets: Buckets, a: Address, bucket: Bucket, evicts: set<Address>): Buckets {
    var more := buckets[a := bucket];
    if |more| >= AUTH_FAILURES_CACHE_SIZE then more - (evicts - {a}) else more
  }

  predicate Allows(limit: Limit, buckets: Buckets, a: Address, now: real)
    requires Usable(limit)
  {
    limit.max == 0 || (Known(limit, buckets, a, now) ==> Decay(limit, buckets[a], now) < limit.max as real)
  }

  function AfterCheck(limit: Limit, buckets: Buckets, a: Address, now: real): Buckets
    requires Usable(limit)
  {
    if limit.max == 0 then buckets else Looked(limit, buckets, a, now)
  }

  function AfterFailure(limit: Limit, buckets: Buckets, a: Address, now: real, evicts: set<Address>)
    : Buckets
    requires Usable(limit)
  {
    if limit.max == 0 then buckets
    else if Known(limit, buckets, a, now) then
      buckets[a := Bucket(Decay(limit, buckets[a], now) + 1.0, now, buckets[a].created)]
    else Inserted(Looked(limit, buckets, a, now), a, Bucket(1.0, now, Seconds(now)), evicts)
  }

  function AfterSuccess(limit: Limit, buckets: Buckets, a: Address): Buckets {
    if limit.max == 0 then buckets else buckets - {a}
  }

  // ---- The failures of one address -------------------------------------------------------------------

  /** A failed attempt, whether the throttle let it pass, and whether a bucket began with it. */
  datatype Attempt = Attempt(at: real, passed: bool, begins: bool)

  type Logs = map<Address, seq<Attempt>>

  /** The clock did not go back between two attempts. */
  ghost predicate Forward(log: seq<Attempt>, i: nat, j: nat)
    requires j < |log|
  {
    forall k, l | i <= k <= l <= j :: log[k].at <= log[l].at
  }

  lemma ForwardPart(log: seq<Attempt>, i: nat, j: nat, k: nat, l: nat)
    requires j < |log| && i <= k <= l <= j && Forward(log, i, j)
    ensures Forward(log, k, l) && log[i].at <= log[k].at <= log[l].at <= log[j].at
  {
  }

  /** The same bucket counted the attempts from i to j. */
  ghost predicate OneLife(log: seq<Attempt>, i: nat, j: nat)
    requires j < |log|
  {
    forall k | i < k <= j :: !log[k].begins
  }

  /** How many buckets counted the attempts from i to j. */
  ghost function Lives(log: seq<Attempt>, i: nat, j: nat): (n: nat)
    requires i <= j < |log|
    ensures n >= 1
    decreases j
  {
    if i == j then 1 else Lives(log, i, j - 1) + if log[j].begins then 1 else 0
  }

  /** The second in which the latest bucket began. */
  ghost function Born(log: seq<Attempt>): int {
    if log == [] then 0
    else
      var last := log[|log| - 1];
      if last.begins then Seconds(last.at) else Born(log[..|log| - 1])
  }

  /**
   * In one bucket's life the failures from i to j are fewer than it holds, one more, and what leaked
   * away meanwhile.
   */
  ghost predicate Bounded(limit: Limit, log: seq<Attempt>, i: nat, j: nat)
    requires limit.window > 0.0 && i <= j < |log|
  {
    OneLife(log, i, j) && Forward(log, i, j) && log[j].passed ==>
        (j - i + 1) as real < limit.max as real + 1.0 + Leaked(limit, log[j].at - log[i].at)
  }

  /** What the bucket of an address knows about the failures it counted. */
  ghost predicate Remembers(limit: Limit, bucket: Bucket, log: seq<Attempt>, i: nat)
    requires limit.window > 0.0 && i < |log|
  {
    var j := |log| - 1;
    OneLife(log, i, j) && Forward(log, i, j) ==>
        (j - i + 1) as real - Leaked(limit, log[j].at - log[i].at) <= bucket.penalty
  }

  /** From this failure on, the bucket knows of no more than were counted, less what leaked away since. */
  ghost predicate Since(limit: Limit, bucket: Bucket, log: seq<Attempt>, i: nat)
    requires limit.window > 0.0 && i < |log|
  {
    var j := |log| - 1;
    && OneLife(log, i, j) && bucket.penalty <= (j - i + 1) as real
    && (Forward(log, i, j) ==> bucket.penalty <= (j - i + 1) as real - Leaked(limit, log[j].at - log[i].at))
  }

  ghost predicate Logged(limit: Limit, bucket: Bucket, log: seq<Attempt>)
    requires limit.window > 0.0
  {
    && log != [] && bucket.lastUpdate == log[|log| - 1].at && bucket.penalty >= 1.0 && bucket.created == Born(log)
    && (log[|log| - 1].passed ==> bucket.penalty < limit.max as real + 1.0)
    && (forall i: nat {:trigger Remembers(limit, bucket, log, i)} | i < |log| :: Remembers(limit, bucket, log, i))
    && exists i: nat {:trigger Since(limit, bucket, log, i)} :: i < |log| && Since(limit, bucket, log, i)
  }

  ghost predicate AllBounded(limit: Limit, log: seq<Attempt>)
    requires limit.window > 0.0
  {
    forall i: nat, j: nat {:trigger Bounded(limit, log, i, j)} | i <= j < |log| :: Bounded(limit, log, i, j)
  }

  /** One more failure: the bucket drains for the time between, and takes one in. */
  lemma RemembersMore(limit: Limit, bucket: Bucket, log: seq<Attempt>, next: Attempt, more: Bucket, i: nat)
    requires limit.window > 0.0 && Logged(limit, bucket, log) && i < |log|
    requires more.penalty == Decay(limit, bucket, next.at) + 1.0
    ensures Remembers(limit, more, log + [next], i)
  {
    var all, j := log + [next], |log| - 1;
    if OneLife(all, i, j + 1) && Forward(all, i, j + 1) {
      assert all[j] == log[j] && all[i] == log[i];
      PartLife(log, next, i);
      assert Remembers(limit, bucket, log, i);
      var x, y := log[j].at - log[i].at, next.at - log[j].at;
      assert all[j].at <= all[j + 1].at;
      LeakedSum(limit, x, y);
      LeakedSign(limit, y);
      assert x + y == next.at - log[i].at;
      assert Leaked(limit, y) == 0.0 || y > 0.0;
    }
  }

  lemma PartLife(log: seq<Attempt>, next: Attempt, i: nat)
    requires i < |log| && OneLife(log + [next], i, |log|) && Forward(log + [next], i, |log|)
    ensures OneLife(log, i, |log| - 1) && Forward(log, i, |log| - 1)
  {
    var all := log + [next];
    forall k, l | i <= k <= l < |log| ensures log[k].at <= log[l].at {
      assert all[k].at <= all[l].at;
    }
    forall k | i < k < |log| ensures !log[k].begins {
      assert !all[k].begins;
    }
  }

  /** What the bucket knows of is still due to the same stretch of failures, unless it had run empty. */
  lemma SinceMore(limit: Limit, bucket: Bucket, log: seq<Attempt>, next: Attempt, more: Bucket, i: nat)
    requires limit.window > 0.0 && bucket.penalty >= 1.0 && !next.begins && i < |log| && Since(limit, bucket, log, i)
    requires bucket.lastUpdate == log[|log| - 1].at && more.penalty == Decay(limit, bucket, next.at) + 1.0
    ensures Since(limit, more, log + [next], if Decay(limit, bucket, next.at) > 0.0 then i else |log|)
  {
    var all, j := log + [next], |log| - 1;
    assert Leaked(limit, 0.0) == 0.0;
    if Decay(limit, bucket, next.at) > 0.0 {
      forall k | i < k <= j + 1 ensures !all[k].begins {
        assert k <= j ==> all[k] == log[k];
      }
      var x, y := log[j].at - log[i].at, next.at - log[j].at;
      if y > 0.0 {
        LeakedSign(limit, y);
      }
      if Forward(all, i, j + 1) {
        PartLife(log, next, i);
        assert all[j].at <= all[j + 1].at && all[j] == log[j] && all[i] == log[i];
        LeakedSum(limit, x, y);
        assert x + y == next.at - log[i].at;
      }
    }
  }

  lemma LoggedMore(limit: Limit, bucket: Bucket, log: seq<Attempt>, next: Attempt)
    requires limit.window > 0.0 && limit.max > 0 && Logged(limit, bucket, log) && !next.begins
    requires next.passed ==> Decay(limit, bucket, next.at) < limit.max as real
    ensures Logged(limit, Bucket(Decay(limit, bucket, next.at) + 1.0, next.at, bucket.created), log + [next])
  {
    var all, more := log + [next], Bucket(Decay(limit, bucket, next.at) + 1.0, next.at, bucket.created);
    assert all[..|log|] == log;
    forall i: nat | i < |all| ensures Remembers(limit, more, all, i) {
      if i < |log| {
        RemembersMore(limit, bucket, log, next, more, i);
      } else {
        assert Leaked(limit, 0.0) == 0.0;
      }
    }
    var i: nat :| i < |log| && Since(limit, bucket, log, i);
    SinceMore(limit, bucket, log, next, more, i);
  }

  /** The failure a bucket begins with. */
  lemma LoggedFirst(limit: Limit, log: seq<Attempt>, next: Attempt)
    requires limit.window > 0.0 && limit.max > 0 && next.begins
    ensures Logged(limit, Bucket(1.0, next.at, Seconds(next.at)), log + [next])
  {
    var all, one := log + [next], Bucket(1.0, next.at, Seconds(next.at));
    forall i: nat | i < |all| ensures Remembers(limit, one, all, i) {
      assert Leaked(limit, 0.0) == 0.0;
      if i < |log| {
        assert all[|log|].begins;
      }
    }
    assert Leaked(limit, 0.0) == 0.0;
    assert Since(limit, one, all, |log|);
  }

  /**
   * The latest bucket of an address counted as many failures as are allowed, since one of them: if the clock did not
   * go back, as many as that and what leaked away up to now.
   */
  ghost predicate Overfull(limit: Limit, log: seq<Attempt>, now: real)
    requires limit.window > 0.0
  {
    exists i: nat {:trigger Enough(limit, log, now, i)} :: i < |log| && Enough(limit, log, now, i)
  }

  ghost predicate Enough(limit: Limit, log: seq<Attempt>, now: real, i: nat)
    requires limit.window > 0.0 && i < |log|
  {
    var j := |log| - 1;
    && OneLife(log, i, j) && |log| - i >= limit.max
    && (Forward(log, i, j) && log[j].at <= now ==>
          (|log| - i) as real >= limit.max as real + Leaked(limit, now - log[i].at))
  }

  lemma FullBucket(limit: Limit, bucket: Bucket, log: seq<Attempt>, now: real)
    requires limit.window > 0.0 && limit.max > 0 && Logged(limit, bucket, log)
    requires Decay(limit, bucket, now) >= limit.max as real
    ensures Overfull(limit, log, now)
  {
    var i: nat :| i < |log| && Since(limit, bucket, log, i);
    var j := |log| - 1;
    var x, y := log[j].at - log[i].at, now - log[j].at;
    if y >= 0.0 {
      LeakedSign(limit, y);
    }
    assert Leaked(limit, 0.0) == 0.0;
    LeakedSum(limit, x, y);
    assert x + y == now - log[i].at;
    assert Enough(limit, log, now, i);
  }

  /** And where the clock did not go back, that is when it is full. */
  lemma OnlyFullBucket(limit: Limit, bucket: Bucket, log: seq<Attempt>, now: real)
    requires limit.window > 0.0 && limit.max > 0 && Logged(limit, bucket, log)
    requires Forward(log, 0, |log| - 1) && log[|log| - 1].at <= now && Overfull(limit, log, now)
    ensures Decay(limit, bucket, now) >= limit.max as real
  {
    var i: nat :| i < |log| && Enough(limit, log, now, i);
    var j := |log| - 1;
    ForwardPart(log, 0, j, i, j);
    assert Remembers(limit, bucket, log, i);
    var x, y := log[j].at - log[i].at, now - log[j].at;
    LeakedSum(limit, x, y);
    assert x + y == now - log[i].at;
    assert Leaked(limit, 0.0) == 0.0;
  }

  /** The bucket's bound on the latest failure gives the bound on every stretch that ends with it. */
  lemma BoundedMore(limit: Limit, bucket: Bucket, log: seq<Attempt>, next: Attempt)
    requires limit.window > 0.0 && AllBounded(limit, log) && Logged(limit, bucket, log + [next])
    ensures AllBounded(limit, log + [next])
  {
    var all := log + [next];
    forall i: nat, j: nat | i <= j < |all| ensures Bounded(limit, all, i, j) {
      if j < |log| {
        BoundedStays(limit, log, next, i, j);
      } else {
        assert Remembers(limit, bucket, all, i);
      }
    }
  }

  lemma BoundedStays(limit: Limit, log: seq<Attempt>, next: Attempt, i: nat, j: nat)
    requires limit.window > 0.0 && AllBounded(limit, log) && i <= j < |log|
    ensures Bounded(limit, log + [next], i, j)
  {
    var all := log + [next];
    assert Bounded(limit, log, i, j);
    if OneLife(all, i, j) && Forward(all, i, j) {
      forall k, l | i <= k <= l <= j ensures log[k].at <= log[l].at {
        assert all[k].at <= all[l].at;
      }
      forall k | i < k <= j ensures !log[k].begins {
        assert !all[k].begins;
      }
    }
  }

  // ---- Several lives ---------------------------------------------------------------------------------

  ghost predicate AllPassed(log: seq<Attempt>, i: nat, j: nat)
    requires j < |log|
  {
    forall k | i <= k <= j :: log[k].passed
  }

  lemma {:induction false} OneLifeLives(log: seq<Attempt>, i: nat, j: nat)
    requires i <= j < |log|
    ensures OneLife(log, i, j) <==> Lives(log, i, j) == 1
    decreases j
  {
    if i < j {
      OneLifeLives(log, i, j - 1);
      assert OneLife(log, i, j) <==> OneLife(log, i, j - 1) && !log[j].begins;
    }
  }

  /** Where the bucket that counted attempt j began, after i. */
  lemma {:induction false} LatestBegin(log: seq<Attempt>, i: nat, j: nat) returns (k: nat)
    requires i <= j < |log| && Lives(log, i, j) > 1
    ensures i < k <= j && log[k].begins && OneLife(log, k, j) && Lives(log, i, j) == Lives(log, i, k - 1) + 1
    decreases j
  {
    if log[j].begins {
      k := j;
    } else {
      k := LatestBegin(log, i, j - 1);
      forall l | k < l <= j ensures !log[l].begins {
      }
    }
  }

  /**
   * Over any stretch, however many buckets counted it: each holds fewer than one more than the maximum, and what
   * leaks away is no more than the time between allows.
   */
  lemma {:induction false} LivesBound(limit: Limit, log: seq<Attempt>, i: nat, j: nat)
    requires limit.window > 0.0 && AllBounded(limit, log) && i <= j < |log| && Forward(log, i, j)
             && AllPassed(log, i, j)
    ensures (j - i + 1) as real < Allowed(limit, Lives(log, i, j)) + Leaked(limit, log[j].at - log[i].at)
    decreases j
  {
    OneLifeLives(log, i, j);
    if Lives(log, i, j) == 1 {
      assert Bounded(limit, log, i, j);
    } else {
      var k := LatestBegin(log, i, j);
      ForwardPart(log, i, j, k, j);
      ForwardPart(log, i, j, i, k - 1);
      assert Bounded(limit, log, k, j);
      LivesBound(limit, log, i, k - 1);
      LeaksApart(limit, log[i].at, log[k - 1].at, log[k].at, log[j].at);
    }
  }

  /** What n buckets hold, and one more for each. */
  ghost function Allowed(limit: Limit, n: nat): real {
    if n == 0 then 0.0 else Allowed(limit, n - 1) + (limit.max as real + 1.0)
  }

  lemma {:induction false} AllowedIs(limit: Limit, n: nat)
    ensures Allowed(limit, n) == n as real * (limit.max as real + 1.0)
  {
    if n > 0 {
      AllowedIs(limit, n - 1);
      OneMoreTime(n - 1, limit.max as real + 1.0);
    }
  }

  lemma OneMoreTime(n: nat, x: real)
    ensures (n + 1) as real * x == n as real * x + x
  {
  }

  lemma {:induction false} AllowedRises(limit: Limit, m: nat, n: nat)
    requires m <= n
    ensures Allowed(limit, m) <= Allowed(limit, n)
  {
    if m < n {
      AllowedRises(limit, m, n - 1);
    }
  }

  lemma LeaksApart(limit: Limit, s: real, t: real, u: real, v: real)
    requires limit.window > 0.0 && s <= t <= u <= v
    ensures Leaked(limit, t - s) + Leaked(limit, v - u) <= Leaked(limit, v - s)
  {
    LeakedSum(limit, t - s, v - u);
    LeakedSum(limit, (t - s) + (v - u), u - t);
    LeakedSign(limit, u - t);
    assert (t - s) + (v - u) + (u - t) == v - s;
  }

  /** A bucket that is not the first began after the one before it had expired. */
  ghost predicate Aged(limit: Limit, log: seq<Attempt>, k: nat)
    requires limit.window > 0.0 && k < |log|
  {
    log[k].begins && k > 0 ==> Ttl(limit) != 0 && Seconds(log[k].at) - Born(log[..k]) > Ttl(limit)
  }

  ghost predicate AllAged(limit: Limit, log: seq<Attempt>)
    requires limit.window > 0.0
  {
    forall k: nat {:trigger Aged(limit, log, k)} | k < |log| :: Aged(limit, log, k)
  }

  lemma AgedMore(limit: Limit, log: seq<Attempt>, next: Attempt)
    requires limit.window > 0.0 && AllAged(limit, log)
    requires next.begins && log != [] ==> Ttl(limit) != 0 && Seconds(next.at) - Born(log) > Ttl(limit)
    ensures AllAged(limit, log + [next])
  {
    var all := log + [next];
    forall k: nat {:trigger Aged(limit, all, k)} | k < |all| ensures Aged(limit, all, k) {
      if k < |log| {
        assert all[..k] == log[..k] && all[k] == log[k];
        assert Aged(limit, log, k);
      } else {
        assert all[..k] == log;
      }
    }
  }

  /** The bucket of attempt j began at its latest begin. */
  lemma {:induction false} BornAt(log: seq<Attempt>, k: nat, j: nat)
    requires k <= j < |log| && log[k].begins && OneLife(log, k, j)
    ensures Born(log[..j + 1]) == Seconds(log[k].at)
    decreases j
  {
    assert log[..j + 1][..j] == log[..j] && log[..j + 1][j] == log[j];
    if k < j {
      BornAt(log, k, j - 1);
      assert !log[j].begins;
    }
  }

  /**
   * Lives are more than a TTL apart, so there are not many of them: the first and one more for each TTL,
   * and one begun.
   */
  lemma {:induction false} LivesApart(limit: Limit, log: seq<Attempt>, i: nat, j: nat)
    requires limit.window > 0.0 && AllAged(limit, log) && i <= j < |log| && Forward(log, i, j) && Lives(log, i, j) > 1
    ensures (Lives(log, i, j) - 2) * (Ttl(limit) + 1) <= Seconds(log[j].at) - Seconds(log[i].at)
    decreases j
  {
    var k := LatestBegin(log, i, j);
    ForwardPart(log, i, j, k, j);
    ForwardPart(log, i, j, i, k - 1);
    SecondsRise(log[k].at, log[j].at);
    SecondsRise(log[i].at, log[k].at);
    if Lives(log, i, k - 1) > 1 {
      EarlierLives(limit, log, i, k);
    }
  }

  lemma {:induction false} EarlierLives(limit: Limit, log: seq<Attempt>, i: nat, k: nat)
    requires limit.window > 0.0 && AllAged(limit, log) && i < k < |log| && log[k].begins
    requires Forward(log, i, k) && Lives(log, i, k - 1) > 1
    ensures (Lives(log, i, k - 1) - 1) * (Ttl(limit) + 1) <= Seconds(log[k].at) - Seconds(log[i].at)
    decreases k
  {
    var m := LatestBegin(log, i, k - 1);
    BornAt(log, m, k - 1);
    assert Aged(limit, log, k);
    ForwardPart(log, i, k, i, m);
    SecondsRise(log[i].at, log[m].at);
    if Lives(log, i, m - 1) > 1 {
      EarlierLives(limit, log, i, m);
      OneStepMore(Lives(log, i, m - 1) - 1, Ttl(limit) + 1);
    }
  }

  lemma OneStepMore(n: int, x: int)
    ensures (n + 1) * x == n * x + x
  {
  }

  lemma LivesInTime(limit: Limit, log: seq<Attempt>, i: nat, j: nat)
    requires limit.window > 0.0 && AllAged(limit, log) && i <= j < |log| && Forward(log, i, j)
    ensures Lives(log, i, j) <= 2 + (Seconds(log[j].at) - Seconds(log[i].at)) / (Ttl(limit) + 1)
  {
    SecondsRise(log[i].at, log[j].at);
    if Lives(log, i, j) > 1 {
      LivesApart(limit, log, i, j);
      AtMostQuotient(Lives(log, i, j) - 2, Seconds(log[j].at) - Seconds(log[i].at), Ttl(limit) + 1);
    }
  }

  lemma AtMostQuotient(n: int, s: int, x: int)
    requires x > 0 && n * x <= s
    ensures n <= s / x
  {
    var q := s / x;
    assert s < (q + 1) * x;
    assert n > q ==> n * x >= (q + 1) * x;
  }

  // ---- The books -------------------------------------------------------------------------------------

  function WithAttempt(log: Logs, a: Address, next: Attempt): Logs {
    log[a := (if a in log then log[a] else []) + [next]]
  }

  /** An address's failures are bounded, and its bucket knows about them. */
  ghost predicate Kept(limit: Limit, buckets: Buckets, log: Logs, a: Address)
    requires limit.window > 0.0
  {
    a in log && AllBounded(limit, log[a]) && (a in buckets ==> Logged(limit, buckets[a], log[a]))
  }

  ghost predicate AllKept(limit: Limit, buckets: Buckets, log: Logs)
    requires limit.window > 0.0
  {
    forall a {:trigger Kept(limit, buckets, log, a)} | a in log.Keys + buckets.Keys :: Kept(limit, buckets, log, a)
  }

  /** An address's buckets began more than a TTL apart, and one that is gone had expired. */
  ghost predicate Spaced(limit: Limit, buckets: Buckets, log: Logs, clock: real, a: Address)
    requires limit.window > 0.0
  {
    a in log && log[a] != [] ==>
      && AllAged(limit, log[a])
      && (a !in buckets ==> Ttl(limit) != 0 && Seconds(clock) - Born(log[a]) > Ttl(limit))
  }

  ghost predicate AllSpaced(limit: Limit, buckets: Buckets, log: Logs, clock: real)
    requires limit.window > 0.0
  {
    forall a {:trigger Spaced(limit, buckets, log, clock, a)} :: Spaced(limit, buckets, log, clock, a)
  }

  /** A lookup keeps the books. */
  lemma LookedKept(limit: Limit, buckets: Buckets, log: Logs, a: Address, now: real)
    requires limit.window > 0.0 && AllKept(limit, buckets, log)
    ensures AllKept(limit, Looked(limit, buckets, a, now), log)
  {
    var after := Looked(limit, buckets, a, now);
    forall b | b in log.Keys + after.Keys ensures Kept(limit, after, log, b) {
      assert Kept(limit, buckets, log, b);
    }
  }

  lemma LookedSpaced(limit: Limit, buckets: Buckets, log: Logs, was: real, a: Address, now: real)
    requires limit.window > 0.0 && AllKept(limit, buckets, log) && AllSpaced(limit, buckets, log, was) && was <= now
    ensures AllSpaced(limit, Looked(limit, buckets, a, now), log, now)
  {
    var after := Looked(limit, buckets, a, now);
    SecondsRise(was, now);
    forall b ensures Spaced(limit, after, log, now, b) {
      assert Spaced(limit, buckets, log, was, b);
      if b in buckets {
        assert Kept(limit, buckets, log, b);
      }
    }
  }

  /** A failure of a is the next attempt. */
  function NextAttempt(limit: Limit, buckets: Buckets, a: Address, now: real): Attempt
    requires Usable(limit) && limit.max > 0
  {
    Attempt(now, Allows(limit, buckets, a, now), !Known(limit, buckets, a, now))
  }

  /** One more attempt of an address keeps the bounds of all. */
  lemma AttemptKept(limit: Limit, buckets: Buckets, log: Logs, a: Address, now: real,
      evicts: set<Address>)
    requires limit.window > 0.0 && limit.max > 0 && AllKept(limit, buckets, log)
    ensures AllKept(limit, AfterFailure(limit, buckets, a, now, evicts),
            WithAttempt(log, a, NextAttempt(limit, buckets, a, now)))
  {
    var after, next := AfterFailure(limit, buckets, a, now, evicts), NextAttempt(limit, buckets, a, now);
    var log' := WithAttempt(log, a, next);
    NextThere(limit, buckets, a, now, evicts);
    AttemptLogged(limit, buckets, log, a, now);
    forall b | b in log'.Keys + after.Keys ensures Kept(limit, after, log', b) {
      if b != a {
        assert Kept(limit, buckets, log, b);
      }
    }
  }

  /** The bucket of an address after a failure. */
  function Next(limit: Limit, buckets: Buckets, a: Address, now: real): Bucket
    requires limit.window > 0.0
  {
    if Known(limit, buckets, a, now) then Bucket(Decay(limit, buckets[a], now) + 1.0, now, buckets[a].created)
    else Bucket(1.0, now, Seconds(now))
  }

  lemma NextThere(limit: Limit, buckets: Buckets, a: Address, now: real, evicts: set<Address>)
    requires limit.window > 0.0 && limit.max > 0
    ensures var after := AfterFailure(limit, buckets, a, now, evicts);
            && a in after && after[a] == Next(limit, buckets, a, now)
            && forall b | b in after && b != a :: b in buckets && after[b] == buckets[b]
  {
  }

  lemma AttemptLogged(limit: Limit, buckets: Buckets, log: Logs, a: Address, now: real)
    requires limit.window > 0.0 && limit.max > 0 && AllKept(limit, buckets, log)
    ensures var all := (if a in log then log[a] else []) + [NextAttempt(limit, buckets, a, now)];
            AllBounded(limit, all) && Logged(limit, Next(limit, buckets, a, now), all)
  {
    var before := if a in log then log[a] else [];
    if a in log.Keys + buckets.Keys {
      assert Kept(limit, buckets, log, a);
    }
    if Known(limit, buckets, a, now) {
      GoesOn(limit, buckets[a], before, NextAttempt(limit, buckets, a, now));
    } else {
      Starts(limit, before, NextAttempt(limit, buckets, a, now));
    }
  }

  lemma GoesOn(limit: Limit, bucket: Bucket, before: seq<Attempt>, next: Attempt)
    requires limit.window > 0.0 && limit.max > 0 && AllBounded(limit, before) && Logged(limit, bucket, before)
    requires !next.begins && (next.passed ==> Decay(limit, bucket, next.at) < limit.max as real)
    ensures AllBounded(limit, before + [next])
    ensures Logged(limit, Bucket(Decay(limit, bucket, next.at) + 1.0, next.at, bucket.created), before + [next])
  {
    LoggedMore(limit, bucket, before, next);
    BoundedMore(limit, Bucket(Decay(limit, bucket, next.at) + 1.0, next.at, bucket.created), before, next);
  }

  lemma Starts(limit: Limit, before: seq<Attempt>, next: Attempt)
    requires limit.window > 0.0 && limit.max > 0 && AllBounded(limit, before) && next.begins
    ensures AllBounded(limit, before + [next])
    ensures Logged(limit, Bucket(1.0, next.at, Seconds(next.at)), before + [next])
  {
    LoggedFirst(limit, before, next);
    BoundedMore(limit, Bucket(1.0, next.at, Seconds(next.at)), before, next);
  }

  /** Nothing but the address's own expired bucket leaves the table when one is inserted for it. */
  ghost predicate NoneEvicted(buckets: Buckets, a: Address, evicts: set<Address>) {
    |buckets| + 1 < AUTH_FAILURES_CACHE_SIZE || evicts <= {a}
  }

  /** And in a steady table the spacing of its buckets. */
  lemma AttemptSpaced(limit: Limit, buckets: Buckets, log: Logs, was: real, a: Address,
      now: real, evicts: set<Address>)
    requires limit.window > 0.0 && limit.max > 0 && AllKept(limit, buckets, log) && AllSpaced(limit, buckets, log, was)
    requires was <= now && NoneEvicted(buckets, a, evicts)
    ensures AllSpaced(limit, AfterFailure(limit, buckets, a, now, evicts),
              WithAttempt(log, a, NextAttempt(limit, buckets, a, now)), now)
  {
    var after, next := AfterFailure(limit, buckets, a, now, evicts), NextAttempt(limit, buckets, a, now);
    var log' := WithAttempt(log, a, next);
    SecondsRise(was, now);
    OthersStay(limit, buckets, a, now, evicts);
    NextAged(limit, buckets, log, was, a, now);
    forall b ensures Spaced(limit, after, log', now, b) {
      assert Spaced(limit, buckets, log, was, b);
    }
  }

  lemma NextAged(limit: Limit, buckets: Buckets, log: Logs, was: real, a: Address, now: real)
    requires limit.window > 0.0 && limit.max > 0 && AllKept(limit, buckets, log) && AllSpaced(limit, buckets, log, was)
    requires was <= now
    ensures AllAged(limit, (if a in log then log[a] else []) + [NextAttempt(limit, buckets, a, now)])
  {
    SecondsRise(was, now);
    assert Spaced(limit, buckets, log, was, a);
    if a in buckets {
      assert Kept(limit, buckets, log, a);
    }
    AgedMore(limit, if a in log then log[a] else [], NextAttempt(limit, buckets, a, now));
  }

  lemma OthersStay(limit: Limit, buckets: Buckets, a: Address, now: real, evicts: set<Address>)
    requires limit.window > 0.0 && limit.max > 0 && NoneEvicted(buckets, a, evicts)
    ensures AfterFailure(limit, buckets, a, now, evicts).Keys == buckets.Keys + {a}
  {
    if !Known(limit, buckets, a, now) {
      var rest := Looked(limit, buckets, a, now);
      FewerKeys(rest, buckets);
      InsertedKeys(rest, a, Bucket(1.0, now, Seconds(now)), evicts);
    }
  }

  lemma InsertedKeys(rest: Buckets, a: Address, bucket: Bucket, evicts: set<Address>)
    requires a !in rest && NoneEvicted(rest, a, evicts)
    ensures Inserted(rest, a, bucket, evicts).Keys == rest.Keys + {a}
  {
    var more := rest[a := bucket];
    assert more.Keys == rest.Keys + {a} && |more| == |more.Keys| && |rest| == |rest.Keys|;
    if evicts <= {a} {
      assert evicts - {a} == {};
    }
  }

  lemma FewerKeys(small: Buckets, large: Buckets)
    requires small.Keys <= large.Keys
    ensures |small| <= |large|
  {
    assert |small| == |small.Keys| && |large| == |large.Keys|;
    FewerElements(small.Keys, large.Keys);
  }

  lemma {:induction false} FewerElements<T>(s: set<T>, t: set<T>)
    requires s <= t
    ensures |s| <= |t|
  {
    if s != {} {
      var x :| x in s;
      FewerElements(s - {x}, t - {x});
    }
  }

  lemma FailureCounted(limit: Limit, buckets: Buckets, a: Address, now: real, evicts: set<Address>)
    requires limit.window > 0.0 && limit.max > 0 && Known(limit, buckets, a, now)
    ensures AfterFailure(limit, buckets, a, now, evicts) ==
              buckets[a := Bucket(Decay(limit, buckets[a], now) + 1.0, now, buckets[a].created)]
  {
  }

  lemma FailureInserted(limit: Limit, buckets: Buckets, a: Address, now: real, evicts: set<Address>)
    requires limit.window > 0.0 && limit.max > 0 && !Known(limit, buckets, a, now)
    ensures AfterFailure(limit, buckets, a, now, evicts)
            == Inserted(buckets - {a}, a, Bucket(1.0, now, Seconds(now)), evicts)
  {
  }

  /**
   * The table of buckets, and the failed attempts of each address since its last success.  `steady` says that
   * up to `clock` the clock never went back and no bucket was evicted.
   */
  datatype Books = Books(buckets: Buckets, log: Logs, clock: real, steady: bool)

  ghost predicate InOrder(limit: Limit, b: Books) {
    && Usable(limit)
    && (limit.max > 0 ==>
        AllKept(limit, b.buckets, b.log) && (b.steady ==> AllSpaced(limit, b.buckets, b.log, b.clock)))
  }

  ghost function BooksChecked(limit: Limit, b: Books, a: Address, now: real): Books
    requires Usable(limit)
  {
    Books(AfterCheck(limit, b.buckets, a, now), b.log, now, b.steady && b.clock <= now)
  }

  ghost function BooksFailed(limit: Limit, b: Books, a: Address, now: real, evicts: set<Address>): Books
    requires Usable(limit)
  {
    Books(AfterFailure(limit, b.buckets, a, now, evicts),
          if limit.max == 0 then b.log else WithAttempt(b.log, a, NextAttempt(limit, b.buckets, a, now)),
          now, b.steady && b.clock <= now && NoneEvicted(b.buckets, a, evicts))
  }

  ghost function BooksCleared(limit: Limit, b: Books, a: Address): Books {
    if limit.max == 0 then b else b.(buckets := AfterSuccess(limit, b.buckets, a), log := b.log - {a})
  }

  lemma CheckedInOrder(limit: Limit, b: Books, a: Address, now: real)
    requires InOrder(limit, b)
    ensures InOrder(limit, BooksChecked(limit, b, a, now))
  {
    if limit.max > 0 {
      LookedKept(limit, b.buckets, b.log, a, now);
      if b.steady && b.clock <= now {
        LookedSpaced(limit, b.buckets, b.log, b.clock, a, now);
      }
    }
  }

  lemma FailedInOrder(limit: Limit, b: Books, a: Address, now: real, evicts: set<Address>)
    requires InOrder(limit, b)
    ensures InOrder(limit, BooksFailed(limit, b, a, now, evicts))
  {
    if limit.max > 0 {
      AttemptKept(limit, b.buckets, b.log, a, now, evicts);
      if b.steady && b.clock <= now && NoneEvicted(b.buckets, a, evicts) {
        AttemptSpaced(limit, b.buckets, b.log, b.clock, a, now, evicts);
      }
    }
  }

  lemma ClearedInOrder(limit: Limit, b: Books, a: Address)
    requires InOrder(limit, b)
    ensures InOrder(limit, BooksCleared(limit, b, a))
  {
    if limit.max > 0 {
      Forgotten(limit, b.buckets, b.log, b.clock, a);
    }
  }

  /** Nobody is refused who did not fail often enough. */
  lemma Earned(limit: Limit, b: Books, a: Address, now: real)
    requires InOrder(limit, b)
    ensures !Allows(limit, b.buckets, a, now) ==> limit.max > 0 && a in b.log && Overfull(limit, b.log[a], now)
  {
    if !Allows(limit, b.buckets, a, now) {
      assert Kept(limit, b.buckets, b.log, a);
      FullBucket(limit, b.buckets[a], b.log[a], now);
    }
  }

  /** The throttle's table, with a record of the failures. */
  class Throttle {
    const limit: Limit
    var buckets: Buckets
    ghost var log: Logs
    ghost var clock: real
    ghost var steady: bool

    ghost function Now(): Books
      reads this
    {
      Books(buckets, log, clock, steady)
    }

    ghost predicate Valid()
      reads this
    {
      InOrder(limit, Now())
    }

    /** The throttle's settings are made usable when the worker starts. */
    constructor (max: nat, window: real, ghost start: real)
      ensures Valid() && limit.max == max && buckets == map[] && log == map[] && steady && clock == start
      ensures limit.window == if max > 0 && window <= 0.0 then DEFAULT_AUTH_FAILURE_WINDOW else window
    {
      limit := Limit(max, if max > 0 && !(window > 0.0) then DEFAULT_AUTH_FAILURE_WINDOW else window);
      buckets, log, clock, steady := map[], map[], start, true;
    }

    /** rspamd_controller_auth_is_allowed; the lookup drops a bucket that has expired. */
    method IsAllowed(a: Address, now: real) returns (allowed: bool)
      requires Valid()
      modifies this
      ensures Valid() && allowed == Allows(limit, old(buckets), a, now)
              && Now() == BooksChecked(limit, old(Now()), a, now)
      ensures !allowed ==> limit.max > 0 && a in log && Overfull(limit, log[a], now)
    {
      CheckedInOrder(limit, Now(), a, now);
      Earned(limit, Now(), a, now);
      allowed := true;
      if limit.max > 0 {
        if a in buckets {
          if Expired(limit, buckets[a], now) {
            buckets := buckets - {a};
          } else {
            allowed := Decay(limit, buckets[a], now) < limit.max as real;
          }
        } else {
          assert buckets - {a} == buckets;
        }
      }
      clock, steady := now, steady && clock <= now;
    }

    /** rspamd_controller_auth_failure; `evicts` is what a full table drops. */
    method Failure(a: Address, now: real, evicts: set<Address>)
      requires Valid()
      modifies this
      ensures Valid() && Now() == BooksFailed(limit, old(Now()), a, now, evicts)
      ensures limit.max > 0 ==> a in log && a in buckets && buckets[a].lastUpdate == now
    {
      ghost var after := BooksFailed(limit, Now(), a, now, evicts);
      FailedInOrder(limit, Now(), a, now, evicts);
      if limit.max > 0 {
        CountFailure(a, now, evicts);
      }
      log, clock, steady := after.log, after.clock, after.steady;
    }

    /** The bucket found takes one failure more, or a new one is inserted. */
    method CountFailure(a: Address, now: real, evicts: set<Address>)
      requires Usable(limit) && limit.max > 0
      modifies `buckets
      ensures buckets == AfterFailure(limit, old(buckets), a, now, evicts)
    {
      if a in buckets && !Expired(limit, buckets[a], now) {
        FailureCounted(limit, buckets, a, now, evicts);
        var bucket := buckets[a];
        bucket := Bucket(Decay(limit, bucket, now) + 1.0, now, bucket.created);
        buckets := buckets[a := bucket];
      } else {
        FailureInserted(limit, buckets, a, now, evicts);
        buckets := buckets - {a};
        buckets := Inserted(buckets, a, Bucket(1.0, now, Seconds(now)), evicts);
      }
    }

    /** rspamd_controller_auth_success. */
    method Success(a: Address)
      requires Valid()
      modifies this
      ensures Valid() && Now() == BooksCleared(limit, old(Now()), a)
      ensures limit.max > 0 ==> buckets == old(buckets) - {a} && log == old(log) - {a}
    {
      ClearedInOrder(limit, Now(), a);
      if limit.max > 0 {
        buckets := buckets - {a};
        log := log - {a};
      }
    }
  }

  lemma Forgotten(limit: Limit, buckets: Buckets, log: Logs, clock: real, a: Address)
    requires limit.window > 0.0 && AllKept(limit, buckets, log)
    ensures AllKept(limit, buckets - {a}, log - {a})
    ensures AllSpaced(limit, buckets, log, clock) ==> AllSpaced(limit, buckets - {a}, log - {a}, clock)
  {
    var after, log' := buckets - {a}, log - {a};
    forall b | b in log'.Keys + after.Keys ensures Kept(limit, after, log', b) {
      assert Kept(limit, buckets, log, b);
    }
    if AllSpaced(limit, buckets, log, clock) {
      forall b ensures Spaced(limit, after, log', clock, b) {
        assert Spaced(limit, buckets, log, clock, b);
      }
    }
  }

  // ---- What the throttle promises --------------------------------------------------------------------

  /**
   * The rate bound: n failures of one address that one bucket counted from t1 to tn, the last of them let pass, are
   * fewer than max + 1 + max * (tn - t1) / window.
   */
  lemma RateBound(t: Throttle, a: Address, i: nat, j: nat, span: real)
    requires t.Valid() && t.limit.max > 0 && a in t.log && i <= j < |t.log[a]| && OneLife(t.log[a], i, j)
    requires Forward(t.log[a], i, j) && t.log[a][j].passed && span == t.log[a][j].at - t.log[a][i].at
    ensures (j - i + 1) as real < t.limit.max as real + 1.0 + t.limit.max as real * span / t.limit.window
  {
    assert Kept(t.limit, t.buckets, t.log, a);
    RateInLife(t.limit, t.log[a], i, j, span);
  }

  lemma RateInLife(limit: Limit, log: seq<Attempt>, i: nat, j: nat, span: real)
    requires limit.window > 0.0 && AllBounded(limit, log) && i <= j < |log| && OneLife(log, i, j)
    requires Forward(log, i, j) && log[j].passed && span == log[j].at - log[i].at
    ensures (j - i + 1) as real < limit.max as real + 1.0 + limit.max as real * span / limit.window
  {
    assert Bounded(limit, log, i, j);
    LeakedByHand(limit, span);
  }

  /** Over any stretch of failures that were all let pass, with max + 1 allowed for each bucket that counted some. */
  lemma RateBoundOverLives(t: Throttle, a: Address, i: nat, j: nat, span: real)
    requires t.Valid() && t.limit.max > 0 && a in t.log && i <= j < |t.log[a]|
    requires Forward(t.log[a], i, j) && AllPassed(t.log[a], i, j) && span == t.log[a][j].at - t.log[a][i].at
    ensures (j - i + 1) as real < Allowed(t.limit, Lives(t.log[a], i, j)) + Leaked(t.limit, span)
  {
    assert Kept(t.limit, t.buckets, t.log, a);
    LivesBound(t.limit, t.log[a], i, j);
  }

  lemma RateOverLives(limit: Limit, log: seq<Attempt>, i: nat, j: nat, span: real)
    requires limit.window > 0.0 && AllBounded(limit, log) && i <= j < |log|
    requires Forward(log, i, j) && AllPassed(log, i, j) && span == log[j].at - log[i].at
    ensures (j - i + 1) as real < Allowed(limit, Lives(log, i, j)) + limit.max as real * span / limit.window
  {
    LivesBound(limit, log, i, j);
    LeakedByHand(limit, span);
  }

  /** In a steady table there are not many lives: two, and one more for each TTL that went by. */
  lemma FewLives(t: Throttle, a: Address, i: nat, j: nat)
    requires t.Valid() && t.steady && t.limit.max > 0 && a in t.log && i <= j < |t.log[a]| && Forward(t.log[a], i, j)
    ensures Lives(t.log[a], i, j) <= 2 + (Seconds(t.log[a][j].at) - Seconds(t.log[a][i].at)) / (Ttl(t.limit) + 1)
  {
    assert Spaced(t.limit, t.buckets, t.log, t.clock, a);
    LivesInTime(t.limit, t.log[a], i, j);
  }

  /**
   * Who is refused: while the clock went forward, an address is refused exactly if its bucket is there and, from
   * some failure on that it counted, there were max of them and what leaked away up to now.
   */
  lemma RefusedIff(t: Throttle, a: Address, now: real)
    requires t.Valid() && t.limit.max > 0 && a in t.log && t.log[a] != []
    requires Forward(t.log[a], 0, |t.log[a]| - 1) && t.log[a][|t.log[a]| - 1].at <= now
    ensures !Allows(t.limit, t.buckets, a, now) <==>
              && Known(t.limit, t.buckets, a, now)
              && exists i: nat {:trigger t.log[a][i]} :: i < |t.log[a]| && OneLife(t.log[a], i, |t.log[a]| - 1)
                   && (|t.log[a]| - i) as real >= t.limit.max as real + Leaked(t.limit, now - t.log[a][i].at)
  {
    var log := t.log[a];
    assert Kept(t.limit, t.buckets, t.log, a);
    Earned(t.limit, t.Now(), a, now);
    EnoughIs(t.limit, log, now);
    if Known(t.limit, t.buckets, a, now) && Overfull(t.limit, log, now) {
      OnlyFullBucket(t.limit, t.buckets[a], log, now);
    }
  }

  lemma EnoughIs(limit: Limit, log: seq<Attempt>, now: real)
    requires limit.window > 0.0 && log != [] && Forward(log, 0, |log| - 1) && log[|log| - 1].at <= now
    ensures Overfull(limit, log, now) <==>
              exists i: nat {:trigger log[i]} :: i < |log| && OneLife(log, i, |log| - 1)
                && (|log| - i) as real >= limit.max as real + Leaked(limit, now - log[i].at)
  {
    forall i: nat {:trigger log[i]} | i < |log| ensures
      Enough(limit, log, now, i) <==>
        OneLife(log, i, |log| - 1) && (|log| - i) as real >= limit.max as real + Leaked(limit, now - log[i].at)
    {
      ForwardPart(log, 0, |log| - 1, i, |log| - 1);
      LeakedSign(limit, now - log[i].at);
    }
  }

  /**
   * Dropping an expired bucket is laxer than letting it decay exactly when something of its penalty is left, and that
   * is so exactly when less than it has leaked away since the last failure.
   */
  lemma ExpiryLaxerIff(limit: Limit, buckets: Buckets, a: Address, now: real, evicts: set<Address>)
    requires limit.window > 0.0 && limit.max > 0 && a in buckets && Expired(limit, buckets[a], now)
    requires buckets[a].penalty > 0.0
    ensures var kept, next := Decay(limit, buckets[a], now) + 1.0, AfterFailure(limit, buckets, a, now, evicts);
            && a in next
            && (next[a].penalty < kept <==> Decay(limit, buckets[a], now) > 0.0)
            && (next[a].penalty < kept <==> Leaked(limit, now - buckets[a].lastUpdate) < buckets[a].penalty)
  {
    var elapsed := now - buckets[a].lastUpdate;
    if elapsed <= 0.0 {
      LeakedSign(limit, -elapsed);
      LeakedSum(limit, elapsed, -elapsed);
      assert Leaked(limit, 0.0) == 0.0;
    }
  }

  /**
   * An address that was let through is let through again after a window without failures, with less than
   * one failure on record.
   */
  lemma IdleWindowForgives(t: Throttle, a: Address, now: real)
    requires t.Valid() && t.limit.max > 0 && a in t.buckets && a in t.log && t.log[a] != []
             && t.log[a][|t.log[a]| - 1].passed
    requires now - t.buckets[a].lastUpdate >= t.limit.window
    ensures Decay(t.limit, t.buckets[a], now) < 1.0 && Allows(t.limit, t.buckets, a, now)
  {
    assert Kept(t.limit, t.buckets, t.log, a);
    var over := now - t.buckets[a].lastUpdate - t.limit.window;
    LeakedWindow(t.limit);
    LeakedSum(t.limit, t.limit.window, over);
    LeakedSign(t.limit, over);
    assert t.limit.window + over == now - t.buckets[a].lastUpdate;
  }

  /** A bucket is empty after a window exactly when it was not over full. */
  lemma EmptyAfterWindowIff(limit: Limit, bucket: Bucket)
    requires limit.window > 0.0 && bucket.penalty >= 0.0
    ensures Decay(limit, bucket, bucket.lastUpdate + limit.window) == 0.0 <==> bucket.penalty <= limit.max as real
  {
    LeakedWindow(limit);
    assert bucket.lastUpdate + limit.window - bucket.lastUpdate == limit.window;
  }

  /** Two failures that both pass can leave a bucket over full, which then outlives the window. */
  method OverfullBucket(a: Address) returns (t: Throttle)
    ensures t.Valid() && t.limit.max > 0 && a in t.buckets && a in t.log
            && t.log[a] == [Attempt(0.0, true, true), Attempt(0.5, true, false)]
    ensures Known(t.limit, t.buckets, a, t.buckets[a].lastUpdate + t.limit.window)
    ensures Decay(t.limit, t.buckets[a], t.buckets[a].lastUpdate + t.limit.window) > 0.0
  {
    t := new Throttle(1, 1.0, 0.0);
    t.Failure(a, 0.0, {});
    assert t.buckets == map[a := Bucket(1.0, 0.0, 0)];
    assert Decay(t.limit, t.buckets[a], 0.5) == 0.5;
    t.Failure(a, 0.5, {});
    assert t.buckets[a] == Bucket(1.5, 0.5, 0);
  }

  /**
   * With two failures a minute allowed, one failure at 0, two at 60 and two at 61 seconds all pass: four of them in
   * one second, more than max + 1 + max * span / window, because the bucket expires a second after it was filled.
   */
  method ExpiryExceedsRate(a: Address) returns (t: Throttle)
    ensures t.Valid() && t.steady && t.limit == Limit(2, 60.0) && a in t.log
    ensures t.log[a] == [Attempt(0.0, true, true), Attempt(60.0, true, false), Attempt(60.0, true, false),
                         Attempt(61.0, true, true), Attempt(61.0, true, false)]
    ensures 4.0 > t.limit.max as real + 1.0 + t.limit.max as real * (61.0 - 60.0) / t.limit.window
  {
    t := new Throttle(2, 60.0, 0.0);
    t.Failure(a, 0.0, {});
    assert t.buckets == map[a := Bucket(1.0, 0.0, 0)];
    assert t.log[a] == [Attempt(0.0, true, true)];
    FillAt60(t, a);
    t.Failure(a, 61.0, {});
    assert t.buckets == map[a := Bucket(1.0, 61.0, 61)];
    t.Failure(a, 61.0, {});
  }

  /** Two failures after a minute: the bucket is full, and was not over full. */
  method FillAt60(t: Throttle, a: Address)
    requires t.Valid() && t.steady && t.clock == 0.0 && t.limit == Limit(2, 60.0)
             && t.buckets == map[a := Bucket(1.0, 0.0, 0)]
    requires a in t.log && t.log[a] == [Attempt(0.0, true, true)]
    modifies t
    ensures t.Valid() && t.steady && t.clock == 60.0 && t.buckets == map[a := Bucket(2.0, 60.0, 0)]
    ensures a in t.log
    ensures t.log[a] == [Attempt(0.0, true, true), Attempt(60.0, true, false), Attempt(60.0, true, false)]
  {
    assert Decay(t.limit, t.buckets[a], 60.0) == 0.0;
    t.Failure(a, 60.0, {});
    assert t.buckets == map[a := Bucket(1.0, 60.0, 0)];
    assert t.log[a] == [Attempt(0.0, true, true), Attempt(60.0, true, false)];
    assert Decay(t.limit, t.buckets[a], 60.0) == 1.0;
    t.Failure(a, 60.0, {});
  }
}

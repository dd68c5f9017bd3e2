/**
 The retrying lock. Other parties use the same cache while the holder sleeps or
 runs its body: any operations, in any number.
 */
module DistributedLock {
  import opened Prelude
  import opened TimedMap
  import opened CacheRuns
  import Backoff
  import C = InMemoryCache

  datatype RetryConfig = RetryConfig(maxAttempts: nat, retryDelay: nat, useBackoff: bool)

  datatype LockError<+E> = Acquisition | Operation(error: E)

  // The wait after the k-th failed attempt, counted from 0.
  function Wait(retry: RetryConfig, k: nat): nat {
    retry.retryDelay * (if retry.useBackoff then Backoff.Pow(2, k) else 1)
  }

  function Waits(retry: RetryConfig, n: nat): (waits: seq<nat>)
    ensures |waits| == n
  {
    seq(n, k requires 0 <= k < n => Wait(retry, k))
  }

  function Total(waits: seq<nat>): nat {
    if waits == [] then 0 else Total(waits[..|waits| - 1]) + waits[|waits| - 1]
  }

  // The waits of n failed attempts add up to a geometric or an arithmetic sum.
  lemma {:induction false} TotalWait(retry: RetryConfig, n: nat)
    requires n >= 1
    ensures Total(Waits(retry, n - 1)) ==
            retry.retryDelay * (if retry.useBackoff then Backoff.Pow(2, n - 1) - 1 else n - 1)
  {
    if n > 1 {
      TotalWait(retry, n - 1);
      OneMoreWait(retry, n - 2);
      if retry.useBackoff {
        Doubling(retry.retryDelay, Backoff.Pow(2, n - 2));
        assert Backoff.Pow(2, n - 1) == 2 * Backoff.Pow(2, n - 2);
      }
    }
  }

  lemma OneMoreWait(retry: RetryConfig, n: nat)
    ensures Waits(retry, n + 1) == Waits(retry, n) + [Wait(retry, n)]
    ensures Total(Waits(retry, n + 1)) == Total(Waits(retry, n)) + Wait(retry, n)
    ensures Wait(retry, n + 1) == if retry.useBackoff then Wait(retry, n) * 2 else Wait(retry, n)
  {
    assert Waits(retry, n + 1)[..n] == Waits(retry, n);
    assert Backoff.Pow(2, n + 1) == 2 * Backoff.Pow(2, n);
  }

  lemma Doubling(d: nat, p: nat)
    ensures d * (p - 1) + d * p == d * (2 * p - 1)
  {}

  // Other parties at work.
  method Others(cache: C.InMemoryCache)
    requires cache.Valid()
    modifies cache
    ensures cache.Valid() && cache.clock >= old(cache.clock)
  {
    var count: nat :| true;
    while count > 0
      invariant cache.Valid() && cache.clock >= old(cache.clock)
    {
      var op: Op := *;
      if WellFormed(op) {
        var _, _ := Perform(cache, op);
      }
      count := count - 1;
    }
  }

  method Sleep(cache: C.InMemoryCache, ms: nat)
    requires cache.Valid()
    modifies cache
    ensures cache.Valid() && cache.clock >= old(cache.clock) + ms
  {
    cache.Tick(ms);
    Others(cache);
  }

  class DistributedLock {
    const cache: C.InMemoryCache
    const key: string
    const ttl: nat
    const retry: RetryConfig
    var token: Option<Bytes>

    ghost predicate Valid()
      reads this, cache
    {
      cache.Valid()
    }

    // The cache adds a second "lock:" of its own.
    function CacheKey(): string {
      C.LockKey(cache.namespace, key)
    }

    constructor (cache: C.InMemoryCache, key: string, ttl: nat, retry: Option<RetryConfig>)
      requires cache.Valid()
      ensures Valid() && this.cache == cache && this.ttl == ttl && token == None
      ensures this.key == "lock:" + key
      ensures this.retry == if retry.Some? then retry.value else RetryConfig(5, 100, true)
    {
      this.cache, this.key, this.ttl := cache, "lock:" + key, ttl;
      this.retry := if retry.Some? then retry.value else RetryConfig(5, 100, true);
      token := None;
    }

    // The lock is in the cache under our token for its whole time to live.
    ghost predicate JustTaken()
      reads this, cache
    {
      && token.Some?
      && (CacheKey() in cache.Visible() <==> Seconds(ttl) > 0)
      && (CacheKey() in cache.Visible() ==> cache.Visible()[CacheKey()] == NewEntry(token.value, Some(ttl), cache.clock))
    }

    method TryAcquire() returns (r: bool)
      requires Valid()
      modifies this`token, cache
      ensures Valid() && cache.clock == old(cache.clock)
      ensures r == (CacheKey() !in old(cache.Visible()))
      ensures r ==> JustTaken()
      ensures !r ==> token == old(token) && cache.Visible() == old(cache.Visible())
    {
      var newToken: Bytes := *;
      var t, _ := cache.Lock(key, ttl, newToken);
      if t.Some? {
        token := t;
      }
      r := t.Some?;
    }

    // A failed call tries exactly as often as configured and waits in between;
    // its last try met a lock held by somebody.
    method Acquire() returns (r: bool, ghost attempts: nat, ghost waits: seq<nat>)
      requires Valid()
      modifies this`token, cache
      ensures Valid() && cache.clock >= old(cache.clock) + Total(waits)
      ensures r ==> JustTaken() && 1 <= attempts <= retry.maxAttempts
      ensures !r ==> token == old(token) && attempts == retry.maxAttempts
      ensures !r && attempts > 0 ==> CacheKey() in cache.Visible()
      ensures waits == Waits(retry, if attempts == 0 then 0 else attempts - 1)
    {
      attempts, waits := 0, [];
      var count := 0;
      var delay := retry.retryDelay;
      while count < retry.maxAttempts
        invariant Valid() && token == old(token)
        invariant count == attempts && (count > 0 ==> count < retry.maxAttempts)
        invariant waits == Waits(retry, count) && cache.clock >= old(cache.clock) + Total(waits)
        invariant delay == Wait(retry, count)
      {
        var taken := TryAcquire();
        attempts := attempts + 1;
        if taken {
          return true, attempts, waits;
        }
        count := count + 1;
        if count >= retry.maxAttempts {
          return false, attempts, waits;
        }
        Sleep(cache, delay);
        OneMoreWait(retry, count - 1);
        waits := waits + [delay];
        if retry.useBackoff {
          delay := delay * 2;
        }
      }
      r := false;
    }

    // Gives back what is held, if it is still there; forgets the token anyway.
    method Release() returns (r: bool)
      requires Valid()
      modifies this`token, cache
      ensures Valid() && token == None
      ensures r == (old(token).Some? && Lookup(old(cache.Visible()), CacheKey()) == old(token))
      ensures cache.Visible() == if r then old(cache.Visible()) - {CacheKey()} else old(cache.Visible())
    {
      if token.Some? {
        r := cache.Unlock(key, token.value);
        token := None;
      } else {
        r := false;
      }
    }

    // The body runs, and may fail, between taking and giving back. Afterwards no
    // token is left and the lock is not in the cache under it; only a caller
    // that could not acquire keeps the token it had.
    method WithLock<T, E>(outcome: Result<T, E>) returns (r: Result<T, LockError<E>>, ghost held: Option<Bytes>)
      requires Valid()
      modifies this`token, cache
      ensures Valid()
      ensures held == None ==> r == Err(Acquisition) && token == old(token)
      ensures held.Some? ==> token == None && Lookup(cache.Visible(), CacheKey()) != held
      ensures held.Some? ==> r == match outcome case Ok(v) => Ok(v) case Err(e) => Err(Operation(e))
    {
      var taken, _, _ := Acquire();
      if !taken {
        return Err(Acquisition), None;
      }
      held := token;
      Others(cache);
      var _ := Release();
      r := match outcome case Ok(v) => Ok(v) case Err(e) => Err(Operation(e));
    }
  }
}

/**
 The timed map that the in-memory cache stands for: a key is visible exactly
 while the current second is before its expiry second.
 */
module TimedMap {
  import opened Prelude

  datatype Entry = Entry(value: Bytes, createdAt: nat, expiresAt: Option<nat>)

  type Entries = map<string, Entry>

  function Seconds(ms: nat): nat {
    ms / 1000
  }

  // An entry made at `clock` with a time to live, both in milliseconds: only
  // whole seconds of each count.
  function NewEntry(value: Bytes, ttl: Option<nat>, clock: nat): Entry {
    Entry(value, Seconds(clock), if ttl.Some? then Some(Seconds(clock) + Seconds(ttl.value)) else None)
  }

  predicate Expired(e: Entry, now: nat) {
    e.expiresAt.Some? && now >= e.expiresAt.value
  }

  function Live(m: Entries, now: nat): Entries {
    map k | k in m && !Expired(m[k], now) :: m[k]
  }

  function Put(v: Entries, k: string, e: Entry, now: nat): Entries {
    Live(v[k := e], now)
  }

  function Lookup(v: Entries, k: string): Option<Bytes> {
    if k in v then Some(v[k].value) else None
  }

  lemma LivePut(m: Entries, k: string, e: Entry, now: nat)
    ensures Live(m[k := e], now) == Put(Live(m, now), k, e, now)
  {}

  lemma LiveMinus(m: Entries, ks: set<string>, now: nat)
    ensures Live(m - ks, now) == Live(m, now) - ks
  {}

  // Removing entries that have expired is not visible.
  lemma RemovingExpired(m: Entries, ks: set<string>, now: nat)
    requires forall k :: k in ks && k in m ==> Expired(m[k], now)
    ensures Live(m - ks, now) == Live(m, now)
  {}

  // Looking later sees what an earlier look saw, minus what expired meanwhile.
  lemma LiveLater(m: Entries, now: nat, later: nat)
    requires now <= later
    ensures Live(Live(m, now), later) == Live(m, later)
  {}

  // The real lifetime in milliseconds: what the truncation to whole seconds
  // takes off is the fraction of the second at which the entry was made and the
  // fraction of a second in the requested time.
  lemma Lifetime(value: Bytes, ttl: nat, clock: nat, now: nat)
    ensures !Expired(NewEntry(value, Some(ttl), clock), Seconds(now))
       <==> now < clock + ttl - (clock % 1000 + ttl % 1000)
  {}
}

/**
 * The in-memory nonce store of the authentication server: a map from an
 * address to the challenge issued for it, where every entry carries the
 * expiry timer armed when it was stored.
 *
 * Clocks and timers are explicit. `now` is a parameter wherever the store
 * reads the clock; a timer is a fresh integer id that is "armed" while it is
 * in the `timers` table. Cancelling a timer removes it from that table, and
 * the event loop runs a timer's callback only while it is armed and due, so
 * a cancelled timer never fires.
 */
module NonceStores {
  import opened Wrappers

  type TimerId = nat

  /** What the store keeps per key: the value, the timer armed for it, and when it was stored. */
  datatype Entry = Entry(value: string, timer: TimerId, createdAt: int)

  /** An armed timer: the key it will delete and the instant it becomes due. */
  datatype Timer = Timer(key: string, due: int)

  /** The whole state of one store: its lifetime, its entries, the timers it has armed, the next fresh timer id. */
  datatype Snapshot = Snapshot(ttl: nat, entries: map<string, Entry>, timers: map<TimerId, Timer>, nextTimer: TimerId)

  /** What `get` reports for `key`: the stored value, or nothing. */
  function Lookup(s: Snapshot, key: string): (r: Option<string>)
    ensures r.Some? <==> key in s.entries
    ensures r.Some? ==> r.value == s.entries[key].value
  {
    if key in s.entries then Some(s.entries[key].value) else None
  }

  /** Key `k` holds the same entry (or none) in both states. */
  ghost predicate SameEntry(s: Snapshot, t: Snapshot, k: string)
  {
    (k in s.entries <==> k in t.entries) && (k in s.entries ==> s.entries[k] == t.entries[k])
  }

  /**
   * The invariant the store keeps: every entry has exactly one armed timer,
   * due `ttl` after the entry was stored, and every armed timer belongs to
   * the current entry of its key (so no stale timer is left to delete a newer
   * entry). Every armed id is below `nextTimer`, so `nextTimer` is fresh.
   */
  ghost predicate Consistent(s: Snapshot)
  {
    && (forall k :: k in s.entries ==>
          s.entries[k].timer in s.timers && s.timers[s.entries[k].timer] == Timer(k, s.entries[k].createdAt + s.ttl))
    && (forall id :: id in s.timers ==>
          id < s.nextTimer && s.timers[id].key in s.entries && s.entries[s.timers[id].key].timer == id)
  }

  /**
   * `set(key, value)` at time `now`: cancel the timer of the entry being
   * replaced, arm a fresh timer due `ttl` later, and store the new entry.
   */
  function AfterSet(s: Snapshot, key: string, value: string, now: int): (t: Snapshot)
    ensures Lookup(t, key) == Some(value)
    ensures key in t.entries && t.entries[key].createdAt == now
    ensures forall k :: k != key ==> SameEntry(s, t, k)
    ensures t.ttl == s.ttl
    ensures Consistent(s) && key in s.entries ==> s.entries[key].timer !in t.timers
    ensures Consistent(s) ==> Consistent(t)
  {
    var id := s.nextTimer;
    var armed := if key in s.entries then s.timers - {s.entries[key].timer} else s.timers;
    s.(entries := s.entries[key := Entry(value, id, now)],
       timers := armed[id := Timer(key, now + s.ttl)],
       nextTimer := id + 1)
  }

  /** `delete(key)`: cancel the entry's timer and remove the entry, if there is one. */
  function AfterDelete(s: Snapshot, key: string): (t: Snapshot)
    ensures Lookup(t, key) == None
    ensures forall k :: k != key ==> SameEntry(s, t, k)
    ensures key !in s.entries ==> t == s
    ensures t.ttl == s.ttl && t.entries.Keys <= s.entries.Keys
    ensures Consistent(s) ==> Consistent(t)
  {
    if key in s.entries then
      s.(entries := s.entries - {key}, timers := s.timers - {s.entries[key].timer})
    else
      s
  }

  /**
   * The event loop's turn for timer `id` at time `now`. The callback runs only
   * if the timer is still armed and due; it then calls `delete` on its key.
   * In a consistent store this removes exactly the entry the timer was armed
   * for, and only once that entry's lifetime has run out.
   */
  function AfterFire(s: Snapshot, id: TimerId, now: int): (t: Snapshot)
    ensures t.ttl == s.ttl && t.entries.Keys <= s.entries.Keys
    ensures id !in s.timers ==> t == s
    ensures Consistent(s) ==> forall k :: k in s.entries ==>
      if s.entries[k].timer == id && now >= s.entries[k].createdAt + s.ttl then k !in t.entries else SameEntry(s, t, k)
    ensures Consistent(s) ==> Consistent(t)
  {
    if id in s.timers && now >= s.timers[id].due then
      AfterDelete(s.(timers := s.timers - {id}), s.timers[id].key)
    else
      s
  }

  /**
   * `getRemainingTime` for an entry stored at `createdAt`: the lifetime still
   * left at `now`, clamped at zero, in whole seconds rounded down.
   */
  function RemainingSeconds(ttl: nat, createdAt: int, now: int): (r: nat)
    ensures ttl - (now - createdAt) <= 0 ==> r == 0
    ensures ttl - (now - createdAt) > 0 ==> r * 1000 <= ttl - (now - createdAt) < r * 1000 + 1000
    ensures now >= createdAt ==> r <= ttl / 1000
  {
    var remaining := if ttl - (now - createdAt) > 0 then ttl - (now - createdAt) else 0;
    remaining / 1000
  }

  /** The remaining time never grows as the clock advances. */
  lemma RemainingSecondsNonIncreasing(ttl: nat, createdAt: int, earlier: int, later: int)
    requires earlier <= later
    ensures RemainingSeconds(ttl, createdAt, later) <= RemainingSeconds(ttl, createdAt, earlier)
  {
  }

  /**
   * Re-issuing for a key cancels the first timer: when it would have become
   * due, firing it leaves the replacement entry alone.
   */
  lemma StaleTimerIsHarmless(s: Snapshot, key: string, first: string, second: string, t1: int, t2: int, now: int)
    requires Consistent(s)
    ensures var s1 := AfterSet(s, key, first, t1);
            var s2 := AfterSet(s1, key, second, t2);
            AfterFire(s2, s1.entries[key].timer, now) == s2 && Lookup(s2, key) == Some(second)
  {
  }

  /** The lifetime a store gets when none is given: five minutes, in milliseconds. */
  const DefaultExpirationMs: nat := 5 * 60 * 1000

  class NonceStore {
    /** The lifetime of an entry in milliseconds (`expirationTimeMs`). */
    const ttl: nat
    /** The server's `this.store` map. */
    var entries: map<string, Entry>
    /** The timers this store has armed and not cancelled, as the event loop holds them. */
    var timers: map<TimerId, Timer>
    var nextTimer: TimerId

    function State(): Snapshot
      reads this
    {
      Snapshot(ttl, entries, timers, nextTimer)
    }

    ghost predicate Valid()
      reads this
    {
      Consistent(State())
    }

    constructor (expirationTimeMs: nat := DefaultExpirationMs)
      ensures Valid()
      ensures ttl == expirationTimeMs && entries == map[] && timers == map[]
    {
      ttl := expirationTimeMs;
      entries := map[];
      timers := map[];
      nextTimer := 0;
    }

    method Set(key: string, value: string, now: int)
      requires Valid()
      modifies this
      ensures Valid()
      ensures State() == AfterSet(old(State()), key, value, now)
      ensures Get(key) == Some(value)
      ensures forall k :: k != key ==> Get(k) == old(Get(k))
    {
      if key in entries {
        timers := timers - {entries[key].timer};
      }
      var timer := nextTimer;
      timers := timers[timer := Timer(key, now + ttl)];
      nextTimer := nextTimer + 1;
      entries := entries[key := Entry(value, timer, now)];
    }

    function Get(key: string): (r: Option<string>)
      reads this
      ensures r.Some? <==> key in entries
      ensures r.Some? ==> r.value == entries[key].value
    {
      Lookup(State(), key)
    }

    method Delete(key: string) returns (existed: bool)
      modifies this
      ensures existed <==> old(Get(key)).Some?
      ensures State() == AfterDelete(old(State()), key)
      ensures Get(key) == None
      ensures forall k :: k != key ==> Get(k) == old(Get(k))
      ensures old(Valid()) ==> Valid()
    {
      existed := key in entries;
      if key in entries {
        timers := timers - {entries[key].timer};
      }
      entries := entries - {key};
    }

    function GetRemainingTime(key: string, now: int): (r: nat)
      reads this
      ensures key !in entries ==> r == 0
      ensures key in entries ==> r == RemainingSeconds(ttl, entries[key].createdAt, now)
      ensures key in entries && now >= entries[key].createdAt ==> r <= ttl / 1000
    {
      if key in entries then RemainingSeconds(ttl, entries[key].createdAt, now) else 0
    }

    /**
     * The event loop's turn for timer `id` at `now`: if it is armed and due,
     * it is disarmed and its callback deletes the key it was armed for.
     */
    method Expire(id: TimerId, now: int)
      requires Valid()
      modifies this
      ensures Valid()
      ensures State() == AfterFire(old(State()), id, now)
    {
      if id in timers && now >= timers[id].due {
        var key := timers[id].key;
        timers := timers - {id};
        var _ := Delete(key);
      }
    }
  }
}

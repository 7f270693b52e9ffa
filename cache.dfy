/** `InMemoryCache`: a string-keyed table of values stamped with the time they
    were stored, read back only while younger than `expiration_time`. The wall
    clock is the explicit integer `now` of each call, and the lock is dropped:
    every operation is one sequential update of the table. */
module Cache {
  import opened Wrappers

  datatype Entry<V> = Entry(value: V, timestamp: int)

  const DefaultExpirationTime: int := 300

  /** `now - entry["timestamp"] < self.expiration_time`: an entry exactly
      `expiration` old has expired. */
  predicate IsLive<V>(e: Entry<V>, now: int, expiration: int)
    ensures IsLive(e, now, expiration) <==> now < e.timestamp + expiration
    ensures now == e.timestamp + expiration ==> !IsLive(e, now, expiration)
  {
    now - e.timestamp < expiration
  }

  /** What a reader at time `now` can observe: the value of every live entry. */
  function LiveView<V>(table: map<string, Entry<V>>, now: int, expiration: int): map<string, V> {
    map k | k in table && IsLive(table[k], now, expiration) :: table[k].value
  }

  /** Entries only ever expire: what is visible later was visible earlier. */
  lemma LiveViewShrinks<V>(table: map<string, Entry<V>>, now: int, later: int, expiration: int)
    requires now <= later
    ensures LiveView(table, later, expiration).Keys <= LiveView(table, now, expiration).Keys
    ensures forall k :: k in LiveView(table, later, expiration) ==>
      LiveView(table, later, expiration)[k] == LiveView(table, now, expiration)[k]
  {
  }

  /** Storing a value at `now` makes it visible at `now`, under its key only,
      as long as the expiration time is positive. */
  lemma LiveViewAfterStore<V>(table: map<string, Entry<V>>, key: string, value: V, now: int, expiration: int)
    requires expiration > 0
    ensures LiveView(table[key := Entry(value, now)], now, expiration)
         == LiveView(table, now, expiration)[key := value]
  {
  }

  /** Dropping an entry that has expired by `now` is invisible to every reader
      at `now` or later. */
  lemma LiveViewAfterEvict<V>(table: map<string, Entry<V>>, key: string, now: int, later: int, expiration: int)
    requires key in table && !IsLive(table[key], now, expiration)
    requires now <= later
    ensures LiveView(table - {key}, later, expiration) == LiveView(table, later, expiration)
  {
  }

  class InMemoryCache<V> {
    var entries: map<string, Entry<V>>
    const expirationTime: int

    /** `__init__(expiration_time=300)`: an empty table. */
    constructor (expirationTime: int := DefaultExpirationTime)
      ensures entries == map[]
      ensures this.expirationTime == expirationTime
    {
      this.entries := map[];
      this.expirationTime := expirationTime;
    }

    /** The values a reader at time `now` can get back. */
    function Visible(now: int): map<string, V>
      reads this
    {
      LiveView(entries, now, expirationTime)
    }

    /** `get(key)`: the value while the entry is live; an expired entry is
        deleted (that key only) and, like a missing one, yields `None`. */
    method Get(key: string, now: int) returns (r: Option<V>)
      modifies this
      ensures r == if key in old(Visible(now)) then Some(old(Visible(now))[key]) else None
      ensures key in old(entries) && IsLive(old(entries)[key], now, expirationTime) ==>
        r == Some(old(entries)[key].value) && entries == old(entries)
      ensures key in old(entries) && !IsLive(old(entries)[key], now, expirationTime) ==>
        r == None && entries == old(entries) - {key}
      ensures key !in old(entries) ==> r == None && entries == old(entries)
      ensures forall t {:trigger Visible(t)} :: now <= t ==> Visible(t) == old(Visible(t))
    {
      if key in entries {
        var entry := entries[key];
        if now - entry.timestamp < expirationTime {
          return Some(entry.value);
        }
        forall t | now <= t ensures LiveView(entries - {key}, t, expirationTime) == Visible(t) {
          LiveViewAfterEvict(entries, key, now, t, expirationTime);
        }
        entries := entries - {key};
      }
      return None;
    }

    /** `set(key, value)`: stores `value` stamped `now`, replacing any entry
        under `key`; no other key changes. */
    method Set(key: string, value: V, now: int)
      modifies this
      ensures entries == old(entries)[key := Entry(value, now)]
      ensures expirationTime > 0 ==> Visible(now) == old(Visible(now))[key := value]
    {
      if expirationTime > 0 {
        LiveViewAfterStore(entries, key, value, now, expirationTime);
      }
      entries := entries[key := Entry(value, now)];
    }

    /** `clear(key=None)`: a truthy key is removed (if present); no key, or
        the empty key, empties the whole table. */
    method Clear(key: Option<string> := None)
      modifies this
      ensures key.Some? && key.value != "" ==> entries == old(entries) - {key.value}
      ensures key.None? || key.value == "" ==> entries == map[]
      ensures forall t {:trigger Visible(t)} ::
        Visible(t) == if key.Some? && key.value != "" then old(Visible(t)) - {key.value} else map[]
    {
      if key.Some? && key.value != "" {
        entries := entries - {key.value};
      } else {
        entries := map[];
      }
    }
  }

  /** A caller's view: with a positive expiration time, reading a key back at
      the instant it was set returns the value just stored. */
  method SetThenGet<V>(cache: InMemoryCache<V>, key: string, value: V, now: int) returns (r: Option<V>)
    requires cache.expirationTime > 0
    modifies cache
    ensures r == Some(value)
    ensures cache.entries == old(cache.entries)[key := Entry(value, now)]
  {
    cache.Set(key, value, now);
    r := cache.Get(key, now);
  }
}

/**
 * The key-value store the verification codes live in, as the code uses it:
 * `SET key value EX ttl`, `GET key`, `DEL key`, with expiry measured by a
 * clock in seconds. An expired key reads as absent.
 */
module Redis {
  import opened Wrappers

  datatype Entry = Entry(value: string, expiresAt: int)

  /** A key is live while the clock is before its expiry time. */
  predicate Live(entries: map<string, Entry>, now: int, key: string) {
    key in entries && now < entries[key].expiresAt
  }

  /** What `GET key` answers for a given content and time. */
  function Read(entries: map<string, Entry>, now: int, key: string): (r: Option<string>)
    ensures r.Some? <==> Live(entries, now, key)
    ensures r.Some? ==> r.value == entries[key].value
  {
    if Live(entries, now, key) then Some(entries[key].value) else None
  }

  /** After `SET key value EX ttl` at time `t0`, `GET key` yields `value` exactly until `t0 + ttl`. */
  lemma ReadAfterSet(entries: map<string, Entry>, key: string, value: string, t0: int, ttl: nat, now: int)
    ensures Read(entries[key := Entry(value, t0 + ttl)], now, key) == (if now < t0 + ttl then Some(value) else None)
  {
  }

  /** A `SET` or `DEL` of one key leaves every other key reading as before. */
  lemma OtherKeysUnaffected(entries: map<string, Entry>, key: string, e: Entry, other: string, now: int)
    requires other != key
    ensures Read(entries[key := e], now, other) == Read(entries, now, other)
    ensures Read(entries - {key}, now, other) == Read(entries, now, other)
  {
  }

  /** Once a key has expired it stays expired as the clock moves on. */
  lemma ExpiredStaysExpired(entries: map<string, Entry>, key: string, now: int, later: int)
    requires now <= later && !Live(entries, now, key)
    ensures Read(entries, later, key) == None
  {
  }

  class Store {
    var entries: map<string, Entry>
    var now: int

    constructor (start: int)
      ensures entries == map[] && now == start
    {
      entries := map[];
      now := start;
    }

    function Lookup(key: string): Option<string>
      reads this
    {
      Read(entries, now, key)
    }

    /** `SET key value EX ex`: overwrites any previous value and restarts the expiry. */
    method Set(key: string, value: string, ex: nat)
      requires ex > 0
      modifies this`entries
      ensures entries == old(entries)[key := Entry(value, now + ex)]
      ensures Lookup(key) == Some(value)
    {
      entries := entries[key := Entry(value, now + ex)];
    }

    /** `GET key`. */
    method Get(key: string) returns (v: Option<string>)
      ensures v.Some? <==> key in entries && now < entries[key].expiresAt
      ensures v.Some? ==> v.value == entries[key].value
    {
      v := Read(entries, now, key);
    }

    /** `DEL key`: the number of live keys removed. */
    method Delete(key: string) returns (n: nat)
      modifies this`entries
      ensures n == (if Live(old(entries), now, key) then 1 else 0)
      ensures entries == old(entries) - {key}
      ensures Lookup(key) == None
    {
      n := if key in entries && now < entries[key].expiresAt then 1 else 0;
      entries := entries - {key};
    }

    /** The passage of `dt` seconds. */
    method Advance(dt: nat)
      modifies this`now
      ensures now == old(now) + dt
    {
      now := now + dt;
    }
  }
}

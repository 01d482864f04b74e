/**
 * The persisted key -> (value, expiry) table behind both cached domains
 * (`viacep_cache` and `catabagulho_cache`), with an explicit clock.
 *
 * A table is a `map`, so "at most one row per key" holds by construction; the
 * `ON CONFLICT ... DO UPDATE` upsert is a map update. Every query may fail, which
 * is a `DbStatus` parameter instead of an exception.
 */
module CacheStore {
  import opened Wrappers

  /** A clock reading in milliseconds (the database's `NOW()` and the service's `new Date()`). */
  type Instant = nat

  /** How long a written row stays valid: `cacheTTLHours` / `CACHE_TTL_HOURS`. */
  const TtlHours: nat := 24
  const MillisPerHour: nat := 3_600_000
  const TtlMillis: nat := TtlHours * MillisPerHour

  datatype Row<V> = Row(value: V, cachedAt: Instant, expiresAt: Instant)

  type Table<K, V> = map<K, Row<V>>

  /** Whether a query reaches the database or throws. */
  datatype DbStatus = DbAvailable | DbFailing

  /** One externally visible effect of a lookup, in the order it happens. */
  datatype Step = ReadCache | FetchUpstream | WriteCache

  /** A miss that fetches and stores: every lookup's effects are a prefix of this. */
  const FullMiss: seq<Step> := [ReadCache, FetchUpstream, WriteCache]

  /** A row is still served while `expires_at > NOW()`. */
  predicate IsValid<V>(row: Row<V>, now: Instant) {
    row.expiresAt > now
  }

  function ValidKeys<K, V>(t: Table<K, V>, now: Instant): set<K> {
    set k | k in t && IsValid(t[k], now)
  }

  function ExpiredKeys<K, V>(t: Table<K, V>, now: Instant): set<K> {
    set k | k in t && !IsValid(t[k], now)
  }

  /**
   * `SELECT ... WHERE key = $1 AND expires_at > NOW() LIMIT 1`, with a failing
   * query read as "no row". An expired row is a miss and stays in the table.
   */
  function Lookup<K, V>(t: Table<K, V>, k: K, now: Instant, db: DbStatus): (r: Option<V>)
    ensures r.Some? <==> db == DbAvailable && k in t && IsValid(t[k], now)
    ensures r.Some? ==> r.value == t[k].value
  {
    if db == DbAvailable && k in t && IsValid(t[k], now) then Some(t[k].value) else None
  }

  /**
   * `INSERT ... ON CONFLICT (key) DO UPDATE`: the row for `k` is replaced
   * (last write wins) and expires `TtlMillis` after `now`; other rows are
   * untouched. A failing query leaves the table as it was.
   */
  function Upsert<K, V>(t: Table<K, V>, k: K, v: V, now: Instant, db: DbStatus): (t': Table<K, V>)
    ensures db == DbFailing ==> t' == t
    ensures db == DbAvailable ==> t'.Keys == t.Keys + {k}
    ensures db == DbAvailable ==> t'[k].value == v && t'[k].expiresAt == now + TtlMillis
    ensures forall k' :: k' in t && k' != k ==> k' in t' && t'[k'] == t[k']
  {
    if db == DbAvailable then t[k := Row(v, now, now + TtlMillis)] else t
  }

  /** `DELETE ... WHERE expires_at <= NOW()`: exactly the expired rows go. */
  function RemoveExpired<K, V>(t: Table<K, V>, now: Instant): (t': Table<K, V>)
    ensures t'.Keys == ValidKeys(t, now)
    ensures forall k :: k in t' ==> t'[k] == t[k]
  {
    map k | k in t && IsValid(t[k], now) :: t[k]
  }

  // ---------------------------------------------------------------------------
  // Lemmas
  // ---------------------------------------------------------------------------

  /** Every row is either valid or expired, never both: `total = valid + expired`. */
  lemma CountsPartition<K, V>(t: Table<K, V>, now: Instant)
    ensures ValidKeys(t, now) !! ExpiredKeys(t, now)
    ensures |t| == |ValidKeys(t, now)| + |ExpiredKeys(t, now)|
  {
    assert t.Keys == ValidKeys(t, now) + ExpiredKeys(t, now);
  }

  /** A value just written is read back unchanged until its expiry instant. */
  lemma LookupAfterUpsert<K, V>(t: Table<K, V>, k: K, v: V, written: Instant, now: Instant)
    requires written <= now < written + TtlMillis
    ensures Lookup(Upsert(t, k, v, written, DbAvailable), k, now, DbAvailable) == Some(v)
  {
  }

  /** From the expiry instant on, the written value is never served again. */
  lemma LookupAfterExpiry<K, V>(t: Table<K, V>, k: K, v: V, written: Instant, now: Instant, db: DbStatus)
    requires now >= written + TtlMillis
    ensures Lookup(Upsert(t, k, v, written, DbAvailable), k, now, db) == None
  {
  }

  /** An upsert adds a row only for a new key; an existing key is overwritten in place. */
  lemma UpsertSize<K, V>(t: Table<K, V>, k: K, v: V, now: Instant)
    ensures |Upsert(t, k, v, now, DbAvailable)| == if k in t then |t| else |t| + 1
  {
  }

  /** Removing expired rows changes no answer a lookup gives at the same instant. */
  lemma LookupIgnoresSweep<K, V>(t: Table<K, V>, k: K, now: Instant, db: DbStatus)
    ensures Lookup(RemoveExpired(t, now), k, now, db) == Lookup(t, k, now, db)
  {
  }

  /**
   * The sweep removes exactly the expired rows: it reports their number, none
   * is left afterwards, and the surviving rows are the valid ones.
   */
  lemma SweepCounts<K, V>(t: Table<K, V>, now: Instant)
    ensures |t| - |RemoveExpired(t, now)| == |ExpiredKeys(t, now)|
    ensures ExpiredKeys(RemoveExpired(t, now), now) == {}
    ensures ValidKeys(RemoveExpired(t, now), now) == ValidKeys(t, now)
  {
    CountsPartition(t, now);
    var t' := RemoveExpired(t, now);
    assert |t'| == |t'.Keys|;
  }

  /** Sweeping twice at the same instant removes nothing the second time. */
  lemma SweepIdempotent<K, V>(t: Table<K, V>, now: Instant)
    ensures RemoveExpired(RemoveExpired(t, now), now) == RemoveExpired(t, now)
  {
  }
}

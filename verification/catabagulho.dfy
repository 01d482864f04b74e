/**
 * `CataBagulhoService`: bulky-waste collection schedules by coordinates, read
 * through the `catabagulho_cache` table.
 *
 * The scraped site is a function from the coordinates as given (the URL uses
 * them unrounded) to what the request yields; database faults are `DbStatus`
 * parameters; the clock is `now`.
 */
module CataBagulho {
  import opened Wrappers
  import opened CacheStore
  import opened CoordKey
  import opened ScheduleParse

  type Results = seq<CataBagulhoResult>

  type ScheduleTable = Table<CoordPair, Results>

  /**
   * What one request to the site yields: the blocks the selectors found (none
   * when the expected markup is absent), or an exception from the transport
   * or from parsing.
   */
  datatype SourceReply = Page(blocks: seq<RawBlock>) | SourceFailure

  /** The only error `search` throws. */
  const SourceError := "Não foi possível obter os dados do serviço Cata-Bagulho."

  /** Result of one search: what the caller gets, the table afterwards, the effects in order. */
  datatype ScheduleLookup = ScheduleLookup(result: Result<Results, string>, table: ScheduleTable, trace: seq<Step>)

  /** No stored row holds an empty result list. */
  predicate NoEmptyRows(t: ScheduleTable) {
    forall k :: k in t ==> t[k].value != []
  }

  /** `getCachedResults`: the unexpired row for the rounded pair; a failing query is a miss. */
  function GetCachedResults(lat: real, lng: real, t: ScheduleTable, now: Instant, db: DbStatus): (r: Option<Results>)
    ensures var key := CoordCacheKey(lat, lng);
      r.Some? <==> db == DbAvailable && key in t && t[key].expiresAt > now
    ensures r.Some? ==> r.value == t[CoordCacheKey(lat, lng)].value
  {
    Lookup(t, CoordCacheKey(lat, lng), now, db)
  }

  /** `cacheResults`: upsert on the rounded pair; a failing query is swallowed. */
  function CacheResults(lat: real, lng: real, results: Results, t: ScheduleTable, now: Instant, db: DbStatus): (t': ScheduleTable)
    ensures db == DbFailing ==> t' == t
    ensures db == DbAvailable ==>
      var key := CoordCacheKey(lat, lng);
      t'.Keys == t.Keys + {key} && t'[key].value == results && t'[key].expiresAt == now + TtlMillis
    ensures forall k :: k in t && k != CoordCacheKey(lat, lng) ==> k in t' && t'[k] == t[k]
  {
    Upsert(t, CoordCacheKey(lat, lng), results, now, db)
  }

  /** `fetchFromSource`: the parsed records, or the one fixed error whatever went wrong. */
  function FetchFromSource(reply: SourceReply): (r: Result<Results, string>)
    ensures r.Failure? <==> reply.SourceFailure?
    ensures r.Failure? ==> r.error == SourceError
    ensures r.Success? ==> r.value == ParseBlocks(reply.blocks)
    ensures r.Success? ==> forall i :: 0 <= i < |r.value| ==> WellFormed(r.value[i])
  {
    match reply
    case Page(blocks) => Success(ParseBlocks(blocks))
    case SourceFailure => Failure(SourceError)
  }

  /**
   * `search`: serve an unexpired row; otherwise fetch live, store the results
   * only when there is at least one, and return them either way. The row is
   * read at `now`; `savedAt` is the later clock reading `cacheResults` stamps
   * the stored row with.
   */
  function Search(
    lat: real, lng: real, t: ScheduleTable, now: Instant,
    read: DbStatus, source: (real, real) -> SourceReply, savedAt: Instant, write: DbStatus): (out: ScheduleLookup)
    ensures out.trace <= FullMiss && |out.trace| >= 1
    ensures FetchUpstream in out.trace <==> GetCachedResults(lat, lng, t, now, read).None?
    ensures out.trace == [ReadCache] ==> out.result == Success(GetCachedResults(lat, lng, t, now, read).value)
    ensures FetchUpstream in out.trace ==> out.result == FetchFromSource(source(lat, lng))
    ensures WriteCache in out.trace <==>
      FetchUpstream in out.trace && out.result.Success? && out.result.value != []
    ensures WriteCache !in out.trace ==> out.table == t
    ensures WriteCache in out.trace ==>
      out.result.Success? && out.table == CacheResults(lat, lng, out.result.value, t, savedAt, write)
  {
    match GetCachedResults(lat, lng, t, now, read)
    case Some(cached) => ScheduleLookup(Success(cached), t, [ReadCache])
    case None =>
      match FetchFromSource(source(lat, lng))
      case Failure(e) => ScheduleLookup(Failure(e), t, [ReadCache, FetchUpstream])
      case Success(live) =>
        if |live| > 0 then
          ScheduleLookup(Success(live), CacheResults(lat, lng, live, t, savedAt, write), FullMiss)
        else
          ScheduleLookup(Success(live), t, [ReadCache, FetchUpstream])
  }

  // ---------------------------------------------------------------------------
  // Lemmas
  // ---------------------------------------------------------------------------

  /** Empty result lists are never written, so a table without them stays without them. */
  lemma SearchKeepsNoEmptyRows(
    lat: real, lng: real, t: ScheduleTable, now: Instant,
    read: DbStatus, source: (real, real) -> SourceReply, savedAt: Instant, write: DbStatus)
    requires NoEmptyRows(t)
    ensures NoEmptyRows(Search(lat, lng, t, now, read, source, savedAt, write).table)
  {
  }

  /** Hence an empty answer always comes from a live fetch, never from the cache. */
  lemma EmptyAnswerIsLive(
    lat: real, lng: real, t: ScheduleTable, now: Instant,
    read: DbStatus, source: (real, real) -> SourceReply, savedAt: Instant, write: DbStatus)
    requires NoEmptyRows(t)
    ensures var out := Search(lat, lng, t, now, read, source, savedAt, write);
      out.result == Success([]) ==> FetchUpstream in out.trace && out.table == t
  {
  }

  /**
   * No caching of emptiness: after a live fetch that found nothing, the next
   * search for the same coordinates goes to the site again.
   */
  lemma EmptyResultRetried(
    lat: real, lng: real, t: ScheduleTable, now: Instant, later: Instant,
    source: (real, real) -> SourceReply, savedAt: Instant, write: DbStatus,
    read': DbStatus, source': (real, real) -> SourceReply, savedAt': Instant, write': DbStatus)
    requires now <= later
    ensures var first := Search(lat, lng, t, now, DbAvailable, source, savedAt, write);
      first.result == Success([]) && FetchUpstream in first.trace ==>
        FetchUpstream in Search(lat, lng, first.table, later, read', source', savedAt', write').trace
  {
  }

  /** A failed fetch or parse writes nothing and surfaces the fixed error. */
  lemma FailureWritesNothing(
    lat: real, lng: real, t: ScheduleTable, now: Instant,
    read: DbStatus, source: (real, real) -> SourceReply, savedAt: Instant, write: DbStatus)
    ensures var out := Search(lat, lng, t, now, read, source, savedAt, write);
      out.result.Failure? ==> out.result.error == SourceError && out.table == t
  {
  }

  /**
   * Read after write, across jitter: once results for one pair of coordinates
   * are stored, any coordinates rounding to the same key are answered from
   * that row until it expires, without asking the site.
   */
  lemma NearbySearchHits(
    lat: real, lng: real, lat': real, lng': real, t: ScheduleTable, asked: Instant, written: Instant, now: Instant,
    source: (real, real) -> SourceReply, source': (real, real) -> SourceReply, savedAt': Instant, write': DbStatus)
    requires CoordCacheKey(lat, lng) == CoordCacheKey(lat', lng')
    requires written <= now < written + TtlMillis
    ensures var first := Search(lat, lng, t, asked, DbAvailable, source, written, DbAvailable);
      WriteCache in first.trace ==>
        Search(lat', lng', first.table, now, DbAvailable, source', savedAt', write')
          == ScheduleLookup(first.result, first.table, [ReadCache])
  {
  }

  /** Whether the cache write succeeded never changes what the caller gets. */
  lemma WriteFailureInvisible(
    lat: real, lng: real, t: ScheduleTable, now: Instant,
    read: DbStatus, source: (real, real) -> SourceReply, savedAt: Instant)
    ensures Search(lat, lng, t, now, read, source, savedAt, DbFailing).result
         == Search(lat, lng, t, now, read, source, savedAt, DbAvailable).result
    ensures Search(lat, lng, t, now, read, source, savedAt, DbFailing).table == t
  {
  }

  /** A page without the expected markup is an empty answer, not an error, and is not stored. */
  lemma MissingMarkupIsEmpty(
    lat: real, lng: real, t: ScheduleTable, now: Instant,
    read: DbStatus, source: (real, real) -> SourceReply, savedAt: Instant, write: DbStatus)
    requires source(lat, lng) == Page([])
    requires GetCachedResults(lat, lng, t, now, read).None?
    ensures Search(lat, lng, t, now, read, source, savedAt, write) == ScheduleLookup(Success([]), t, [ReadCache, FetchUpstream])
  {
  }
}

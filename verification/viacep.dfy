/**
 * `ViaCepService`: address lookup by CEP, read through the `viacep_cache` table.
 *
 * The upstream registry is a function from the normalised CEP to the reply it
 * would give; database faults are `DbStatus` parameters; the clock is `now`.
 */
module ViaCep {
  import opened Wrappers
  import opened Text
  import opened CacheStore
  import opened CepKey

  /** The address object the service hands back. A field the JSON body leaves out is `None`. */
  datatype ViaCepResponse = ViaCepResponse(
    cep: Option<string>,
    logradouro: Option<string>,
    complemento: Option<string>,
    unidade: Option<string>,
    bairro: Option<string>,
    localidade: Option<string>,
    uf: Option<string>)

  /** The value columns of a `viacep_cache` row; the `cep` column is the row key. */
  datatype CepFields = CepFields(
    logradouro: string,
    complemento: string,
    unidade: string,
    bairro: string,
    localidade: string,
    uf: string)

  type CepTable = Table<string, CepFields>

  /** What the ViaCEP endpoint does with one request. */
  datatype ViaCepReply =
    | Body(data: ViaCepResponse, hasErro: bool)  // 2xx; `hasErro` when the JSON carries an `erro` key
    | HttpStatus(status: nat)                     // axios error with a non-2xx response
    | NoResponse                                  // axios error without a response: timeout, refused, DNS
    | OtherError(message: string)                 // any non-axios exception

  /** The errors `buscarEnderecoPorCep` throws. */
  datatype CepError = InvalidCep | CepNotFound | ConnectionFailed | Unexpected(message: string) {
    function Message(): string {
      match this
      case InvalidCep => "CEP deve conter exatamente 8 dígitos"
      case CepNotFound => "CEP não encontrado"
      case ConnectionFailed => "Falha na conexão com o serviço de CEP"
      case Unexpected(m) => m
    }
  }

  /** Result of one lookup: what the caller gets, the table afterwards, the effects in order. */
  datatype CepLookup = CepLookup(result: Result<ViaCepResponse, CepError>, table: CepTable, trace: seq<Step>)

  datatype SeedReply = SeedReply(ok: bool, cep: string)

  datatype CacheStats = CacheStats(total: nat, valid: nat, expired: nat, ttlHours: nat, error: Option<string>)

  datatype SweepReport = SweepReport(removidos: nat, error: Option<string>)

  const StatsFailure := "Falha ao obter estatísticas"
  const SweepFailure := "Falha ao limpar cache expirado"
  const FallbackMessage := "Erro ao buscar CEP"

  /** The row key both the read and the write use: `NNNNN-NNN` for eight digits. */
  function CepRowKey(normalized: string): (key: string)
    ensures NormalizeCep(key) == NormalizeCep(normalized)
    ensures |NormalizeCep(normalized)| == CepLength ==> |key| == CepLength + 1 && key[HyphenAt] == '-'
  {
    FormatRoundTrip(normalized);
    FormatCepWithHyphen(normalized)
  }

  /** `s` is what `field || ''` gives: the field when present, `''` otherwise. */
  predicate DefaultsTo(field: Option<string>, s: string) {
    (field.Some? ==> s == field.value) && (field.None? ==> s == "")
  }

  /** `data.field || ''`. */
  function OrEmpty(field: Option<string>): (s: string)
    ensures DefaultsTo(field, s)
  {
    field.GetOr("")
  }

  /** The columns `saveCachedCep` writes for a fetched address. */
  function StoredFields(data: ViaCepResponse): (f: CepFields)
    ensures DefaultsTo(data.logradouro, f.logradouro) && DefaultsTo(data.complemento, f.complemento)
    ensures DefaultsTo(data.unidade, f.unidade) && DefaultsTo(data.bairro, f.bairro)
    ensures DefaultsTo(data.localidade, f.localidade) && DefaultsTo(data.uf, f.uf)
  {
    CepFields(OrEmpty(data.logradouro), OrEmpty(data.complemento), OrEmpty(data.unidade),
              OrEmpty(data.bairro), OrEmpty(data.localidade), OrEmpty(data.uf))
  }

  /** The object `getCachedCep` builds from a row: every column present, `cep` is the row key. */
  function FromRow(key: string, f: CepFields): (r: ViaCepResponse)
    ensures r.cep == Some(key)
    ensures r.logradouro.Some? && r.complemento.Some? && r.unidade.Some?
    ensures r.bairro.Some? && r.localidade.Some? && r.uf.Some?
    ensures StoredFields(r) == f
  {
    ViaCepResponse(Some(key), Some(f.logradouro), Some(f.complemento), Some(f.unidade),
                   Some(f.bairro), Some(f.localidade), Some(f.uf))
  }

  /** `getCachedCep`: the unexpired row for the hyphenated key; a failing query is a miss. */
  function GetCachedCep(normalized: string, t: CepTable, now: Instant, db: DbStatus): (r: Option<ViaCepResponse>)
    ensures var key := CepRowKey(normalized);
      r.Some? <==> db == DbAvailable && key in t && t[key].expiresAt > now
    ensures r.Some? ==> r.value == FromRow(CepRowKey(normalized), t[CepRowKey(normalized)].value)
  {
    var key := CepRowKey(normalized);
    match Lookup(t, key, now, db)
    case Some(f) => Some(FromRow(key, f))
    case None => None
  }

  /** `saveCachedCep`: upsert under the hyphenated key, missing fields as `''`; a failing query is swallowed. */
  function SaveCachedCep(normalized: string, data: ViaCepResponse, t: CepTable, now: Instant, db: DbStatus): (t': CepTable)
    ensures db == DbFailing ==> t' == t
    ensures db == DbAvailable ==>
      var key := CepRowKey(normalized);
      t'.Keys == t.Keys + {key} && t'[key].value == StoredFields(data) && t'[key].expiresAt == now + TtlMillis
    ensures forall k :: k in t && k != CepRowKey(normalized) ==> k in t' && t'[k] == t[k]
  {
    Upsert(t, CepRowKey(normalized), StoredFields(data), now, db)
  }

  /**
   * `fetchFromViaCepAPI`: a body with `erro` or an HTTP 404 means the CEP does
   * not exist, any other axios failure is a connection failure, and anything
   * else keeps its own message.
   */
  function FetchFromViaCepApi(reply: ViaCepReply): (r: Result<ViaCepResponse, CepError>)
    ensures r.Success? <==> reply.Body? && !reply.hasErro
    ensures r.Success? ==> r.value == reply.data
    ensures r == Failure(CepNotFound) <==> (reply.Body? && reply.hasErro) || reply == HttpStatus(404)
    ensures r == Failure(ConnectionFailed) <==> (reply.HttpStatus? && reply.status != 404) || reply.NoResponse?
    ensures r.Failure? ==> r.error != InvalidCep && r.error.Message() != ""
    ensures reply.OtherError? ==>
      r == Failure(Unexpected(if reply.message == "" then FallbackMessage else reply.message))
  {
    match reply
    case Body(data, hasErro) => if hasErro then Failure(CepNotFound) else Success(data)
    case HttpStatus(status) => if status == 404 then Failure(CepNotFound) else Failure(ConnectionFailed)
    case NoResponse => Failure(ConnectionFailed)
    case OtherError(message) => Failure(Unexpected(if message == "" then FallbackMessage else message))
  }

  /**
   * `buscarEnderecoPorCep`: reject anything that is not 8 digits, serve an
   * unexpired row, otherwise fetch, upsert and return what was fetched.
   * The row is read at `now`; `savedAt` is the clock reading `saveCachedCep`
   * takes after the fetch, from which the stored row's lifetime is counted.
   */
  function BuscarEnderecoPorCep(
    raw: string, t: CepTable, now: Instant,
    read: DbStatus, upstream: string -> ViaCepReply, savedAt: Instant, write: DbStatus): (out: CepLookup)
    ensures out.trace <= FullMiss
    ensures |NormalizeCep(raw)| != CepLength <==> out.trace == []
    ensures |NormalizeCep(raw)| != CepLength ==> out == CepLookup(Failure(InvalidCep), t, [])
    ensures FetchUpstream in out.trace <==>
      |NormalizeCep(raw)| == CepLength && GetCachedCep(NormalizeCep(raw), t, now, read).None?
    ensures WriteCache in out.trace <==>
      FetchUpstream in out.trace && FetchFromViaCepApi(upstream(NormalizeCep(raw))).Success?
    ensures WriteCache !in out.trace ==> out.table == t
    ensures WriteCache in out.trace ==>
      out.result.Success? && out.table == SaveCachedCep(NormalizeCep(raw), out.result.value, t, savedAt, write)
    ensures out.trace == [ReadCache] ==> out.result == Success(GetCachedCep(NormalizeCep(raw), t, now, read).value)
    ensures FetchUpstream in out.trace ==> out.result == FetchFromViaCepApi(upstream(NormalizeCep(raw)))
  {
    var normalized := NormalizeCep(raw);
    if |normalized| != CepLength then
      CepLookup(Failure(InvalidCep), t, [])
    else
      match GetCachedCep(normalized, t, now, read)
      case Some(cached) => CepLookup(Success(cached), t, [ReadCache])
      case None =>
        match FetchFromViaCepApi(upstream(normalized))
        case Failure(e) => CepLookup(Failure(e), t, [ReadCache, FetchUpstream])
        case Success(data) =>
          CepLookup(Success(data), SaveCachedCep(normalized, data, t, savedAt, write), FullMiss)
  }

  /** `seedCache`: write a row directly, without checking the digit count; always reports `ok`. */
  function SeedCache(raw: string, data: ViaCepResponse, t: CepTable, now: Instant, write: DbStatus): (out: (SeedReply, CepTable))
    ensures out.0.ok && NormalizeCep(out.0.cep) == NormalizeCep(raw)
    ensures out.0.cep == CepRowKey(NormalizeCep(raw))
    ensures write == DbAvailable ==> out.0.cep in out.1 && out.1[out.0.cep].value == StoredFields(data)
    ensures out.1 == SaveCachedCep(NormalizeCep(raw), data, t, now, write)
  {
    var normalized := NormalizeCep(raw);
    FormatRoundTrip(normalized);
    NormalizeIdempotent(raw);
    (SeedReply(true, CepRowKey(normalized)), SaveCachedCep(normalized, data, t, now, write))
  }

  /** `getCacheStats`: the three counts at `now`, or zeros and a message when the query fails. */
  function GetCacheStats(t: CepTable, now: Instant, db: DbStatus): (s: CacheStats)
    ensures s.ttlHours == TtlHours
    ensures s.error.None? <==> db == DbAvailable
    ensures db == DbAvailable ==> s.total == |t| && s.total == s.valid + s.expired
    ensures db == DbAvailable ==> s.valid == |ValidKeys(t, now)| && s.expired == |ExpiredKeys(t, now)|
    ensures db == DbFailing ==> s.total == 0 && s.valid == 0 && s.expired == 0 && s.error == Some(StatsFailure)
  {
    if db == DbAvailable then
      CountsPartition(t, now);
      CacheStats(|t|, |ValidKeys(t, now)|, |ExpiredKeys(t, now)|, TtlHours, None)
    else
      CacheStats(0, 0, 0, TtlHours, Some(StatsFailure))
  }

  /** `clearExpiredCache`: delete the expired rows and report how many went. */
  function ClearExpiredCache(t: CepTable, now: Instant, db: DbStatus): (out: (SweepReport, CepTable))
    ensures db == DbFailing ==> out == (SweepReport(0, Some(SweepFailure)), t)
    ensures db == DbAvailable ==> out.0.error.None?
    ensures db == DbAvailable ==> out.0.removidos == |ExpiredKeys(t, now)|
    ensures db == DbAvailable ==> out.1.Keys == ValidKeys(t, now)
    ensures forall k :: k in out.1 ==> k in t && out.1[k] == t[k]
  {
    if db == DbAvailable then
      var t' := RemoveExpired(t, now);
      SweepCounts(t, now);
      (SweepReport(|t| - |t'|, None), t')
    else
      (SweepReport(0, Some(SweepFailure)), t)
  }

  // ---------------------------------------------------------------------------
  // Lemmas
  // ---------------------------------------------------------------------------

  /** Inputs that differ only in formatting get the same answer and touch the same row. */
  lemma LookupIgnoresFormatting(
    a: string, b: string, t: CepTable, now: Instant,
    read: DbStatus, upstream: string -> ViaCepReply, savedAt: Instant, write: DbStatus)
    requires NormalizeCep(a) == NormalizeCep(b)
    ensures BuscarEnderecoPorCep(a, t, now, read, upstream, savedAt, write)
         == BuscarEnderecoPorCep(b, t, now, read, upstream, savedAt, write)
  {
  }

  /** Inputs with different digits never share a row. */
  lemma DistinctDigitsDistinctRows(a: string, b: string)
    requires NormalizeCep(a) != NormalizeCep(b)
    ensures CepRowKey(NormalizeCep(a)) != CepRowKey(NormalizeCep(b))
  {
    NormalizeIdempotent(a);
    NormalizeIdempotent(b);
    SameKeyIffSameDigits(NormalizeCep(a), NormalizeCep(b));
  }

  /**
   * Read after write: once a miss has been fetched and stored, any input with
   * the same digits is served from the row until it expires, without a fetch,
   * whatever the upstream would now say.
   */
  lemma SecondLookupHits(
    a: string, b: string, t: CepTable, asked: Instant, written: Instant, now: Instant,
    upstream: string -> ViaCepReply, upstream': string -> ViaCepReply,
    read': DbStatus, savedAt': Instant, write': DbStatus)
    requires NormalizeCep(a) == NormalizeCep(b)
    requires written <= now < written + TtlMillis
    ensures var first := BuscarEnderecoPorCep(a, t, asked, DbAvailable, upstream, written, DbAvailable);
      WriteCache in first.trace ==>
        var second := BuscarEnderecoPorCep(b, first.table, now, DbAvailable, upstream', savedAt', write');
        && second.trace == [ReadCache]
        && second.table == first.table
        && second.result == Success(FromRow(CepRowKey(NormalizeCep(a)), StoredFields(first.result.value)))
  {
    var first := BuscarEnderecoPorCep(a, t, asked, DbAvailable, upstream, written, DbAvailable);
    if WriteCache in first.trace {
      var key := CepRowKey(NormalizeCep(a));
      assert key in first.table && first.table[key].expiresAt == written + TtlMillis;
    }
  }

  /** What the caller gets does not depend on whether the cache write succeeded. */
  lemma WriteFailureInvisible(
    raw: string, t: CepTable, now: Instant, read: DbStatus, upstream: string -> ViaCepReply, savedAt: Instant)
    ensures BuscarEnderecoPorCep(raw, t, now, read, upstream, savedAt, DbFailing).result
         == BuscarEnderecoPorCep(raw, t, now, read, upstream, savedAt, DbAvailable).result
    ensures BuscarEnderecoPorCep(raw, t, now, read, upstream, savedAt, DbFailing).table == t
  {
  }

  /** A lookup that fails leaves the table exactly as it found it. */
  lemma FailureWritesNothing(
    raw: string, t: CepTable, now: Instant,
    read: DbStatus, upstream: string -> ViaCepReply, savedAt: Instant, write: DbStatus)
    ensures var out := BuscarEnderecoPorCep(raw, t, now, read, upstream, savedAt, write);
      out.result.Failure? ==> out.table == t && WriteCache !in out.trace
  {
  }

  /** A seeded valid CEP is then served from the cache, in its stored form. */
  lemma SeedThenLookup(
    seeded: string, raw: string, data: ViaCepResponse, t: CepTable, written: Instant, now: Instant,
    upstream: string -> ViaCepReply, savedAt: Instant, write: DbStatus)
    requires |NormalizeCep(seeded)| == CepLength
    requires NormalizeCep(raw) == NormalizeCep(seeded)
    requires written <= now < written + TtlMillis
    ensures var t' := SeedCache(seeded, data, t, written, DbAvailable).1;
      BuscarEnderecoPorCep(raw, t', now, DbAvailable, upstream, savedAt, write)
        == CepLookup(Success(FromRow(CepRowKey(NormalizeCep(raw)), StoredFields(data))), t', [ReadCache])
  {
  }

  /**
   * Seeding a CEP that does not have 8 digits writes a row keyed by the bare
   * digits; no lookup can ever reach it, so every lookup behaves as without it.
   */
  lemma SeededInvalidRowUnreachable(
    seeded: string, data: ViaCepResponse, raw: string, t: CepTable, written: Instant, now: Instant,
    read: DbStatus, upstream: string -> ViaCepReply, savedAt: Instant, write: DbStatus)
    requires |NormalizeCep(seeded)| != CepLength
    ensures var t' := SeedCache(seeded, data, t, written, DbAvailable).1;
      var before := BuscarEnderecoPorCep(raw, t, now, read, upstream, savedAt, write);
      var after := BuscarEnderecoPorCep(raw, t', now, read, upstream, savedAt, write);
      after.result == before.result && after.trace == before.trace
  {
    var n := NormalizeCep(raw);
    if |n| == CepLength {
      var s := NormalizeCep(seeded);
      NormalizeIdempotent(seeded);
      NormalizeIdempotent(raw);
      SameKeyIffSameDigits(n, s);
      assert CepRowKey(n) != CepRowKey(s);
    }
  }

  /**
   * Sweep correctness: the report counts the rows that were expired, and the
   * statistics taken right after show no expired row and the old valid count
   * as the total.
   */
  lemma StatsAfterSweep(t: CepTable, now: Instant)
    ensures var before := GetCacheStats(t, now, DbAvailable);
      var (report, t') := ClearExpiredCache(t, now, DbAvailable);
      var after := GetCacheStats(t', now, DbAvailable);
      && report.removidos == before.expired
      && after.expired == 0
      && after.total == before.valid
      && after.valid == before.valid
  {
    SweepCounts(t, now);
    var t' := RemoveExpired(t, now);
    assert |t'| == |t'.Keys|;
  }

  /** The sweep never changes what a lookup at the same instant returns. */
  lemma LookupIgnoresSweepAt(
    raw: string, t: CepTable, now: Instant,
    read: DbStatus, upstream: string -> ViaCepReply, savedAt: Instant, write: DbStatus)
    ensures var t' := ClearExpiredCache(t, now, DbAvailable).1;
      BuscarEnderecoPorCep(raw, t', now, read, upstream, savedAt, write).result
        == BuscarEnderecoPorCep(raw, t, now, read, upstream, savedAt, write).result
  {
    LookupIgnoresSweep(t, CepRowKey(NormalizeCep(raw)), now, read);
  }
}

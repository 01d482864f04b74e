# Read-through cache of the logo-ali backend, in Dafny

This project models the backend's two cached lookups and proves properties about them:

- **`ViaCepService`**: address by Brazilian postal code (CEP), cached in `viacep_cache`.
- **`CataBagulhoService`**: bulky-waste collection schedules by coordinates, cached in
  `catabagulho_cache`.

Both read a row only while `expires_at > NOW()`. On a miss they fetch from the third-party
source and upsert the row with a 24-hour lifetime. Both swallow database errors.

Everything is pure functions over immutable values:

- A table is a `map<Key, Row<V>>`. So "at most one row per key" holds by construction, and the
  `ON CONFLICT ... DO UPDATE` upsert is a map update.
- The clock is a `nat` parameter (milliseconds), shared by the service's `new Date()` and the
  database's `NOW()`.
- Each database query may throw. This is a `DbStatus` parameter (`DbAvailable` / `DbFailing`).
- The upstream is a function parameter:
  - ViaCEP: from the normalised CEP to a `ViaCepReply` (a body, with or without `erro`; an
    HTTP error status; no response; any other exception).
  - The schedule site: from the raw coordinates to a `SourceReply` (the texts the HTML
    selectors found, or a failure).
- Each lookup returns a record of three things: the caller's result (`Result` value or error),
  the table afterwards, and the trace of effects in order (`ReadCache`, `FetchUpstream`,
  `WriteCache`). So "no fetch on a hit" and "exactly one write on a stored miss" are statements
  about the trace.

Modules, one per component:

| file | module | models |
|---|---|---|
| `wrappers.dfy` | `Wrappers` | `Option`, `Result` |
| `text.dfy` | `Text` | the JavaScript string operations used: `\D`, `trim`, `startsWith`, `split`; plus `Join`, the inverse of `split` the lemmas state round trips with |
| `cache_store.dfy` | `CacheStore` | the generic table: read, upsert, expired-row sweep, counts |
| `cep_key.dfy` | `CepKey` | `normalizeCep`, `formatCepWithHyphen` |
| `viacep.dfy` | `ViaCep` | `ViaCepService` |
| `coord_key.dfy` | `CoordKey` | `toFixed(8)` as integer fixed point at 10^-8 |
| `schedule_parse.dfy` | `ScheduleParse` | the string post-processing of `parseHTML` |
| `catabagulho.dfy` | `CataBagulho` | `CataBagulhoService` |

Points where the code's behaviour is easy to misread:

- **Row key of the address cache.** Both the read and the write key the row by
  `formatCepWithHyphen`, i.e. `NNNNN-NNN`, not by the bare 8 digits.
- **No separate parse error.** Every failure of the schedule fetch or parse becomes one fixed
  message. A page without the expected markup gives an empty list, which is not cached.
- **No source annotation.** Results are not tagged with whether they came from the cache or
  the upstream. The model's trace plays that role.
- **Cache hits return a different shape.** On a hit the CEP service returns the stored row,
  not the fetched JSON:
  - missing fields come back as `''`;
  - `cep` is the row key.

  `SecondLookupHits` states this exactly.
- **`seedCache` skips the length check.** It never checks for 8 digits. A seed with another
  digit count writes a row under the bare digits, and no lookup can reach that row
  (`SeededInvalidRowUnreachable`).
- **Two clock readings per request.** A lookup reads the cache at `now`. The save stamps the
  row with its own `new Date()`, taken after the fetch (`savedAt`), so the row's lifetime
  counts from then.

## Model

| member | source | states |
|---|---|---|
| Text.Trim | backend/src/services/cataBagulhoService.ts:93 | `trim()` leaves no whitespace at either end and is no longer than its input. It is empty exactly when the input is all whitespace. |
| Text.TrimChars | backend/src/services/cataBagulhoService.ts:93 | `trim()` only removes characters: every character of the result occurs in the input. |
| Text.TrimOfTrimmed | backend/src/services/cataBagulhoService.ts:93 | A text with no whitespace at either end comes out of `trim()` unchanged. |
| Text.IsWhitespace | backend/src/services/cataBagulhoService.ts:93 | The characters `trim()` removes: tab, line feed, vertical tab, form feed, carriage return, space, no-break space, the Unicode space separators, line and paragraph separators, and the byte order mark. |
| Text.TrimOfPadded | backend/src/services/cataBagulhoService.ts:93 | Reference definition of `trim()`: whitespace padding around a trimmed text is removed, and exactly that text remains. |
| Text.TrimIdempotent | backend/src/services/cataBagulhoService.ts:99-101 | Trimming an already trimmed part (the parts are trimmed before `startsWith`) changes nothing. |
| Text.StartsWith | backend/src/services/cataBagulhoService.ts:101-102 | `startsWith` holds iff the text is at least as long as the prefix and agrees with it position by position. The text is then the prefix followed by the rest. |
| Text.Split | backend/src/services/cataBagulhoService.ts:113 | `split(';')` yields at least one piece, and no piece contains the separator. |
| Text.JoinSplit | backend/src/services/cataBagulhoService.ts:113 | Joining the pieces of a split with the same separator gives back the original text. |
| Text.SplitJoin | backend/src/services/cataBagulhoService.ts:113 | Splitting a join gives back the pieces, provided no piece holds the separator. |
| Text.SplitCount | backend/src/services/cataBagulhoService.ts:113 | A split has one more piece than the text has separators. |
| CacheStore.Lookup | backend/src/services/viacepService.ts:45-67 | A read returns a value iff the query succeeds, a row exists for the key, and `expires_at > now`. The value is that row's. An expired row and a failing query both read as a miss. |
| CacheStore.Upsert | backend/src/services/viacepService.ts:104-146 | Upsert adds the key if new, stores exactly the given value with `expires_at = now + 24h`, and leaves every other row unchanged. A failing query leaves the table unchanged. |
| CacheStore.RemoveExpired | backend/src/services/viacepService.ts:197 | Deleting with `expires_at <= NOW()` leaves exactly the valid keys, each with its row unchanged. |
| CacheStore.CountsPartition | backend/src/services/viacepService.ts:164-179 | Valid and expired rows are disjoint and together make up the table: `total = valid + expired`. |
| CacheStore.LookupAfterUpsert | backend/src/services/viacepService.ts:104-146 | A value written at time w is read back unchanged at any time before w + 24h. |
| CacheStore.LookupAfterExpiry | backend/src/services/viacepService.ts:47-53 | From w + 24h on, the written value is never returned. |
| CacheStore.UpsertSize | backend/src/services/viacepService.ts:117-127 | An upsert on an existing key keeps the row count; only a new key adds a row. |
| CacheStore.LookupIgnoresSweep | backend/src/services/viacepService.ts:195-203 | The sweep changes no answer that a read at the same instant gives. |
| CacheStore.SweepCounts | backend/src/services/viacepService.ts:195-203 | The sweep removes as many rows as were expired. No expired row remains, and the valid keys are unchanged. |
| CacheStore.SweepIdempotent | backend/src/services/viacepService.ts:197 | A second sweep at the same instant removes nothing. |
| CepKey.NormalizeCep | backend/src/services/viacepService.ts:11-13 | The output is digits only and is a subsequence of the input (never longer). |
| CepKey.NormalizeOfDigits | backend/src/services/viacepService.ts:11-13 | A digits-only string is returned unchanged. |
| CepKey.NormalizeOfNonDigits | backend/src/services/viacepService.ts:11-13 | A string without digits normalises to `""`. |
| CepKey.NormalizeConcat | backend/src/services/viacepService.ts:11-13 | Normalisation distributes over concatenation. With the two lemmas above, this pins it down completely. |
| CepKey.NormalizeIdempotent | backend/src/services/viacepService.ts:11-13 | Normalising twice equals normalising once. |
| CepKey.FormatCepWithHyphen | backend/src/services/viacepService.ts:151-157 | Eight digits become 9 characters with `-` at index 5, and removing it gives the digits back. Any other digit count returns the digits unchanged. |
| CepKey.FormatRoundTrip | backend/src/services/viacepService.ts:151-157 | Normalising the formatted key gives back the normalised input. |
| CepKey.SameKeyIffSameDigits | backend/src/services/viacepService.ts:151-157 | Two inputs get the same row key iff they carry the same digits (both directions). |
| CepKey.FormatIdempotent | backend/src/services/viacepService.ts:151-157 | Formatting an already formatted key changes nothing. |
| CepKey.PracaDaSeExample | backend/src/services/viacepService.ts:151-157 | `01001-000` normalises to `01001000`. It and `01001000` both key the row `01001-000`. |
| ViaCep.OrEmpty | backend/src/services/viacepService.ts:132-137 | Each field falls back to `''`: a present field is stored as is, an absent one as `''`. |
| ViaCep.CepRowKey | backend/src/services/viacepService.ts:56 | The row key carries exactly the digits of the CEP. For 8 digits it is 9 characters with `-` at index 5. |
| ViaCep.StoredFields | backend/src/services/viacepService.ts:131-137 | Each stored column is the reply's field when present, and `''` when absent. |
| ViaCep.FromRow | backend/src/services/viacepService.ts:47-59 | The object read from a row has the row key as `cep`. Every other field is present, and it holds exactly the stored column. |
| ViaCep.GetCachedCep | backend/src/services/viacepService.ts:45-67 | A hit happens iff the query succeeds and the hyphenated key has an unexpired row. The hit returns that row. |
| ViaCep.SaveCachedCep | backend/src/services/viacepService.ts:104-146 | Writes the hyphenated key with the `''`-defaulted fields and `expires_at = now + 24h`. Other rows are untouched. A failing write is swallowed and changes nothing. |
| ViaCep.FetchFromViaCepApi | backend/src/services/viacepService.ts:72-99 | Success iff the body has no `erro`. "CEP não encontrado" iff the body has `erro` or the status is 404. "Falha na conexão com o serviço de CEP" iff any other axios failure. Any other error keeps its own message, or "Erro ao buscar CEP" when that message is empty. |
| ViaCep.BuscarEnderecoPorCep | backend/src/services/viacepService.ts:18-40 | A digit count other than 8 is rejected with no cache read and no fetch. A hit returns the row with no fetch and no write. A failed fetch propagates its error, writes nothing, and leaves the table unchanged. A successful fetch returns the fetched value after exactly one upsert, stamped at the save's own clock reading. |
| ViaCep.SeedCache | backend/src/services/viacepService.ts:217-226 | A seed always reports `ok`. The reported `cep` is the row key formatted from the input's digits, whether or not the write succeeded. After a successful write the table has that row with the defaulted fields. The seed performs exactly the cache write. |
| ViaCep.GetCacheStats | backend/src/services/viacepService.ts:162-190 | total = row count = valid + expired, partitioned at `expires_at > now`, with `ttlHours = 24`. A failing query gives zeros and the error message. |
| ViaCep.ClearExpiredCache | backend/src/services/viacepService.ts:195-212 | Reports the number of expired rows and removes exactly those. Surviving rows are unchanged. A failing query reports 0 and the error message, and changes nothing. |
| ViaCep.LookupIgnoresFormatting | backend/src/services/viacepService.ts:18-40 | Inputs with the same digits (e.g. with or without hyphen) get identical results, tables and traces. |
| ViaCep.DistinctDigitsDistinctRows | backend/src/services/viacepService.ts:151-157 | Inputs with different digits never share a row. |
| ViaCep.SecondLookupHits | backend/src/services/viacepService.ts:26-39 | After a miss has been stored, any same-digit input before expiry is a hit with no fetch, whatever the upstream would now say. The hit returns the stored form of the fetched value. |
| ViaCep.WriteFailureInvisible | backend/src/services/viacepService.ts:142-145 | A failing cache write never changes what the caller gets, and leaves the table unchanged. |
| ViaCep.FailureWritesNothing | backend/src/services/viacepService.ts:34-37 | Every failed lookup leaves the table as it was and has no write in its trace. |
| ViaCep.SeedThenLookup | backend/src/services/viacepService.ts:217-226 | A seeded 8-digit CEP is then served from the cache, in stored form, without a fetch. |
| ViaCep.SeededInvalidRowUnreachable | backend/src/services/viacepService.ts:217-226 | A seed whose digit count is not 8 never changes the result or trace of any lookup. |
| ViaCep.StatsAfterSweep | backend/src/services/viacepService.ts:162-203 | After a sweep: removed = expired before, expired = 0, and total = valid = valid before. |
| ViaCep.LookupIgnoresSweepAt | backend/src/services/viacepService.ts:195-203 | A sweep never changes what a lookup at the same instant returns. |
| CoordKey.RoundHalfUp | backend/src/services/cataBagulhoService.ts:35 | Rounds a non-negative magnitude to the nearest integer, taking the larger one on a tie. |
| CoordKey.ToFixed8 | backend/src/services/cataBagulhoService.ts:35 | The key is within half a 10^-8 unit of the coordinate and has its sign. |
| CoordKey.CoordCacheKey | backend/src/services/cataBagulhoService.ts:35 | The key pair is each coordinate to within half a 10^-8 unit, the same pair for the read and for the write (line 61). |
| CoordKey.OnGridUnchanged | backend/src/services/cataBagulhoService.ts:35 | A coordinate with at most 8 decimals keeps its exact value. |
| CoordKey.NearbyShareKey | backend/src/services/cataBagulhoService.ts:61 | Any coordinate within half a unit of a grid point gets that point as its key (jitter absorption). |
| CoordKey.ToFixed8Monotone | backend/src/services/cataBagulhoService.ts:35 | Rounding preserves order. |
| CoordKey.ToFixed8Odd | backend/src/services/cataBagulhoService.ts:35 | `toFixed` sets the sign aside, so `key(-x) = -key(x)`. |
| CoordKey.HalvesAwayFromZero | backend/src/services/cataBagulhoService.ts:35 | Ties round away from zero, for positive and negative coordinates. |
| ScheduleParse.OrNotInformed | backend/src/services/cataBagulhoService.ts:109 | The trimmed text, or `'Não informado'` when that is empty, is never empty and is trimmed. It is the placeholder exactly for blank text, otherwise the trimmed text. |
| ScheduleParse.ExtractDetail | backend/src/services/cataBagulhoService.ts:106-110 | A detail value is `'Não informado'` exactly when the cell text is blank, and otherwise the trimmed cell text. It is never empty and is trimmed. |
| ScheduleParse.TrimAndDropEmpty | backend/src/services/cataBagulhoService.ts:113 | Each output piece is non-empty and trimmed. There are never more outputs than inputs. A non-blank first piece heads the output, trimmed. |
| ScheduleParse.KeptAreTrimmedPieces | backend/src/services/cataBagulhoService.ts:113 | Every output piece is the trim of some input piece. |
| ScheduleParse.KeptAvoids | backend/src/services/cataBagulhoService.ts:113 | A character that no input piece holds appears in no output piece (this is why no date holds a `;`). |
| ScheduleParse.TrimAndDropEmptyCons | backend/src/services/cataBagulhoService.ts:113 | The first piece contributes exactly what it contributes on its own, ahead of the rest's output. |
| ScheduleParse.SplitDates | backend/src/services/cataBagulhoService.ts:112-113 | Each date is non-empty, trimmed, and contains no `;`. There are at most (number of `;`) + 1 dates. A text without `;` gives no date when blank, otherwise itself trimmed as the one date. |
| ScheduleParse.FindLabelled | backend/src/services/cataBagulhoService.ts:101-102 | `find` returns the first index whose trimmed part starts with the label, or none when no part does. |
| ScheduleParse.Stretch | backend/src/services/cataBagulhoService.ts:101-102 | A stretch is never empty and is trimmed. It is `'Não informado'` when no part starts with the label. Otherwise it is the trimmed text after the label in the first such part, or `'Não informado'` when that text is blank. |
| ScheduleParse.ParseBlock | backend/src/services/cataBagulhoService.ts:92-123 | A block is skipped iff its street text is blank. Otherwise the street is that text, trimmed; the stretch start and end are the `Início:` and `Fim:` stretches of its parts; the dates are the split of the `Dias:` cell's detail; frequency, shift and schedule are the details of the `Freq.:`, `Turno:` and `Horário:` cells. |
| ScheduleParse.ParseBlocks | backend/src/services/cataBagulhoService.ts:86-131 | Every record has a non-empty street, stretches and details. Every date is non-empty and has no `;`. There are never more records than blocks. |
| ScheduleParse.ParseBlocksConcat | backend/src/services/cataBagulhoService.ts:91-124 | Parsing goes block by block, in page order: parse(a + b) = parse(a) + parse(b). |
| ScheduleParse.ParseSingleBlock | backend/src/services/cataBagulhoService.ts:93-95 | A single block yields no record iff its street is blank, otherwise exactly its own record. |
| ScheduleParse.TrimAndDropEmptyOfClean | backend/src/services/cataBagulhoService.ts:113 | Pieces that are already non-empty and trimmed pass through unchanged. |
| ScheduleParse.TrimAndDropEmptyConcat | backend/src/services/cataBagulhoService.ts:113 | `map(trim).filter` works piece by piece: the output for two runs of pieces is the two outputs concatenated. |
| ScheduleParse.TrimAndDropEmptySingle | backend/src/services/cataBagulhoService.ts:113 | A single piece is dropped iff it is blank, and otherwise kept trimmed. With the lemma above, this fixes the output for every input. |
| ScheduleParse.TrimAndDropEmptyKeeps | backend/src/services/cataBagulhoService.ts:113 | Every non-blank piece appears trimmed in the output, between the outputs of the pieces before and after it. |
| ScheduleParse.TrimAndDropEmptyPair | backend/src/services/cataBagulhoService.ts:113 | Two non-blank pieces both survive, trimmed, in their order. |
| ScheduleParse.SplitDatesOfPieces | backend/src/services/cataBagulhoService.ts:113 | For any `;`-free pieces, the dates of the pieces joined by `;` are the trimmed non-blank pieces, in order. |
| ScheduleParse.ExampleTrimSeg | backend/src/services/cataBagulhoService.ts:113 | `trim()` leaves `"seg"` as it is. |
| ScheduleParse.ExampleTrimQua | backend/src/services/cataBagulhoService.ts:113 | `trim()` turns `" qua"` into `"qua"`. |
| ScheduleParse.SplitDatesExample | backend/src/services/cataBagulhoService.ts:113 | `"seg; qua"` gives the dates `["seg", "qua"]`. |
| ScheduleParse.SplitDatesOfJoin | backend/src/services/cataBagulhoService.ts:113 | Round trip: non-empty, trimmed, `;`-free dates joined by `;` are split back into the same list. |
| ScheduleParse.SplitDatesOfPlaceholder | backend/src/services/cataBagulhoService.ts:109-113 | The placeholder splits into itself as the single date. |
| ScheduleParse.MissingDaysRow | backend/src/services/cataBagulhoService.ts:112-113 | A block without a `Dias:` value has `dates = ['Não informado']`. |
| ScheduleParse.FindAfterNonMatching | backend/src/services/cataBagulhoService.ts:101 | A matching part that follows only non-matching parts is the one found. |
| ScheduleParse.PrefixedPartText | backend/src/services/cataBagulhoService.ts:101 | A part `label + gap + text` with any whitespace on either side, trimmed, starts with the label. Removing the label leaves `gap + text`. |
| ScheduleParse.StretchOfLabelledPart | backend/src/services/cataBagulhoService.ts:101-102 | For any parts before it that do not carry the label, and any whitespace around the part, the stretch is the text after the label, without the whitespace. |
| ScheduleParse.StartStretchOfBlock | backend/src/services/cataBagulhoService.ts:101-117 | A kept block whose first `Início:` part is padded text after the label records exactly that text as the stretch start. |
| ScheduleParse.EndStretchOfBlock | backend/src/services/cataBagulhoService.ts:102-118 | A kept block whose first `Fim:` part is padded text after the label records exactly that text as the stretch end. |
| ScheduleParse.DetailsOfBlock | backend/src/services/cataBagulhoService.ts:106-122 | Non-blank frequency, shift and schedule cells are recorded trimmed. |
| ScheduleParse.StretchOfBlankLabel | backend/src/services/cataBagulhoService.ts:101-102 | A first labelled part holding nothing but whitespace after the label gives `'Não informado'`. |
| CataBagulho.GetCachedResults | backend/src/services/cataBagulhoService.ts:28-44 | A hit happens iff the query succeeds and the rounded pair has an unexpired row. The hit returns that row's results. |
| CataBagulho.CacheResults | backend/src/services/cataBagulhoService.ts:46-66 | Upserts the rounded pair with the results and `expires_at = now + 24h`. Other rows are untouched. A failing write is swallowed. |
| CataBagulho.FetchFromSource | backend/src/services/cataBagulhoService.ts:68-84 | Any transport or parse failure becomes the one fixed message. Otherwise the result is the parsed, well-formed records. |
| CataBagulho.Search | backend/src/services/cataBagulhoService.ts:11-26 | A hit returns the cached results without a fetch. A miss fetches and returns the live result. The result is written (once) iff it is a non-empty list, stamped at the save's own clock reading. A failure propagates, and the table is unchanged whenever nothing is written. |
| CataBagulho.SearchKeepsNoEmptyRows | backend/src/services/cataBagulhoService.ts:21-23 | Invariant: no stored row ever holds an empty result list. |
| CataBagulho.EmptyAnswerIsLive | backend/src/services/cataBagulhoService.ts:11-26 | Under that invariant, an empty answer always comes from a live fetch and leaves the table unchanged. |
| CataBagulho.EmptyResultRetried | backend/src/services/cataBagulhoService.ts:19-25 | After a live fetch that found nothing, the next search for the same coordinates fetches again. |
| CataBagulho.FailureWritesNothing | backend/src/services/cataBagulhoService.ts:68-84 | A failed search carries the fixed error and leaves the table unchanged. |
| CataBagulho.NearbySearchHits | backend/src/services/cataBagulhoService.ts:12-16 | After results are stored, any coordinates with the same rounded key are answered from the row until expiry, without a fetch. |
| CataBagulho.WriteFailureInvisible | backend/src/services/cataBagulhoService.ts:63-65 | A failing cache write never changes what the caller gets. |
| CataBagulho.MissingMarkupIsEmpty | backend/src/services/cataBagulhoService.ts:126-130 | On a miss, a page without result blocks gives an empty list with no write. |

## Left out

- HTTP and database I/O are parameters, not code. This covers axios calls to ViaCEP and the schedule site, `pg` queries and connection setup (`backend/src/database/database.ts`), timeouts and headers.
- One request is one sequential function call. Not modelled: the `Promise.all` of the three counting queries (they may see slightly different `NOW()` values) and races between requests on the same key.
- One clock serves both sides. A lookup's read instant `now` and its save instant `savedAt` are independent parameters; the model does not require `savedAt >= now`, and no lemma needs it. Not modelled: skew between the service clock (`new Date()`, which sets `expires_at`) and the database clock (`NOW()`, which reads it). `setHours(+24)` is taken as exactly 24 hours, so local-time daylight-saving shifts are not modelled.
- Not modelled: the HTML traversal done by cheerio (selectors, splitting `.logradouro` on `<br>`, text of several matching rows concatenated). Each block arrives as the texts those selectors yield.
- `toFixed(8)` works on the exact real value of a coordinate. Not modelled: IEEE doubles and the exponential format `toFixed` uses at or above 10^21.
- Extra JSON fields in a ViaCEP reply (`ibge`, `ddd`, ...) are not modelled. They are returned on a miss and not stored. Neither are non-string field values.
- Also not modelled: log lines, the `timestamp` and `message` fields of the sweep and seed replies, the `updated_at`/`created_at` audit columns, and the `id` column.
- Not part of this model: `geocodeService.ts` (an uncached pass-through), the controllers and routes (HTTP status codes, and the controller's calls to a `getCep` the service does not define), server startup and migrations, and the whole frontend.

# A verified model of the Aptora finance core

The modules here model, in Dafny, the parts of the API in which state evolves over many calls or in which
arithmetic has to be exact, and prove what they guarantee over all inputs and all runs:

- **exchange rates**: the ISO calendar and request chunks (`Calendar`, `FxFetch`), the rate store and its sync
  planner (`FxStore`), whole runs of publishing and syncing (`FxRuns`), the date filter of the rate table
  (`FxFilter`), conversion (`FxConvert`) and what its rounding costs (`FxArithmetic`);
- **one-time passwords**: bit strings and 32-bit shifts (`Bits`), base32 (`Base32`), HOTP and TOTP (`Totp`);
- **the rate limiter** (`RateLimit`), **contracts** with approval and signature, one request after another
  (`Contracts`) and overlapping (`ContractOverlap`);
- **capture**: e-mail ingest under concurrent calls (`EmailIngest`), the extraction cache (`ExtractionCache`,
  with overlapping calls `ExtractionOverlap`) and vendor matching (`VendorMatch`);
- **the ledger prototype**: budget cells (`LedgerBudget`), accruals (`LedgerAccruals`) and payment exports
  (`LedgerPayments`).

Code that changes state is modelled by classes and loops, each proved equal to a function of the old state;
the properties of runs are lemmas about those functions. Exceptions are results. `Round` is
`floor(x + 1/2)`, as `Math.round` is on exact numbers, and rates are exact reals.

## What the proofs found

- *A stored rate is never corrected.* The comment at fx-rates.service.ts:394 expects the seven-day refresh to
  pick up corrections. The unique key with "skip duplicates" makes the first write final, and for a provider
  that publishes whole days in date order neither the refresh nor a backfill ever adds a row. In every run,
  with a provider that may replace what it lists, a stored rate is the one listed when it was first gained
  (`FxRuns.RunKey`, `FxRuns.FirstGainStays`, `FxRuns.RefreshAddsNothing`).
- *A day published late, between the earliest and the latest stored day*, is stored exactly when some later
  sync is answered throughout on that day or in the week after it; backfill makes no difference there
  (`FxRuns.GapFilledWhen`, `FxRuns.LateDayStoredWhen`, a lost rate in `FxRuns.LostRate`). A day before the
  earliest stored one is what a backfill does fetch (`FxRuns.SyncGain`).
- *The base32 accumulator wraps and is still right*, for inputs of every length (`Base32.ToBase32`,
  `Base32.RoundTrip`).
- *The window does not slide.* The comment at rate-limit.guard.ts:13 says sliding; the window is fixed from the
  first request after expiry. A sliding one admits at most the limit in every half-open interval of one window
  length. This one does so exactly when the limit is 1 or the window is one millisecond; otherwise such an
  interval can admit twice the limit less one (`RateLimit.SlidesExactlyWhen`, `RateLimit.HalfOpenBoundReached`).
- *Active does not imply signed.* The transition endpoint skips approval and signature
  (`Contracts.TransitionBypasses`); an active contract carries a completed envelope exactly when no transition
  activated it (`Contracts.ActiveBySignature`). Completion does not ask whether the envelope was ever sent: one
  was exactly when a request to send it came while signature was pending (`Contracts.CompletesUnsent`,
  `Contracts.SentWhenAsked`).
- *A failed e-mail ingest is never retried*: a delivery that arrives when its message has a row uploads nothing
  and, if it is answered, is a duplicate (`EmailIngest.SettledFinal`, `EmailIngest.LateCalls`).
- *The extraction cache ignores the document type*: an upload is answered with a payload of its own type exactly
  when the first extracted upload of that content had that type (`ExtractionCache.TypeOfFirst`,
  `ExtractionCache.ContractReadAsInvoice`).
- *Token overlap can outrank containment*, against the order stated at vendor-match.ts:3: it does exactly from a
  ratio of 0.775 (`VendorMatch.TokensOutrankContainment`).
- *Renaming a ledger entity to an existing name* writes over that entity's cells wherever the old name had one
  (`LedgerBudget.RenameMovesCells`). Whatever the names, every amount arrives exactly when no cell moves onto a
  cell of the old name still to be moved, its own key included; where names nest this depends on the order in
  which the keys are listed, and in the wrong order amounts are lost (`LedgerBudget.Rekey`,
  `LedgerBudget.NestedNameLoses`). A new name is taken as it stands exactly when it has none of the patterns
  that String.replace expands (`LedgerBudget.ReplacesLiterally`).
- *Overlapping requests*: of two first uploads of one content both can be read, answered differently and metered;
  a content is read at most once exactly when no two of its calls that saved overlapped
  (`ExtractionOverlap.ReadOnceWhen`, `ExtractionOverlap.ReadTwice`). Of the contract invariant only the range of
  the stage and the shape of the envelope survive overlapping requests; two completions can file two documents, a
  draft can keep an envelope, and an active contract can lose its completion (`ContractOverlap.RunSound`,
  `ContractOverlap.CompletedTwice`, `ContractOverlap.DraftWithEnvelope`, `ContractOverlap.CompletedUndone`).
- *A day filter without a month is ignored*, though the refusal's text asks for one (`FxFilter.FilterWithoutMonth`).

## Model

| member | source | states |
|---|---|---|
| Calendar.FromDay | apps/api/src/modules/fx-rates/application/fx-fetch.ts:52-54 | every day number of the years 0 to 9999 has a valid civil date, and that date has this day number |
| Calendar.DayOrder | apps/api/src/modules/fx-rates/application/fx-fetch.ts:56-58 | year, month, day order is day order, and equal days are equal dates |
| Calendar.ParseIso | apps/api/src/modules/fx-rates/application/fx-fetch.ts:52-58 | reading a printed date gives the date back |
| Calendar.IsoParse | apps/api/src/modules/fx-rates/application/fx-fetch.ts:52-58 | printing a read date gives the text back |
| Calendar.IsoOrder | apps/api/src/modules/fx-rates/application/fx-fetch.ts:66-72 | comparing four-digit ISO texts as strings compares the days, both ways, and equal texts are equal days |
| Calendar.IsoTextOrder | apps/api/src/modules/fx-rates/application/fx-fetch.ts:84 | the same for any two ISO texts, as `cursor <= to` compares them |
| Calendar.MinMaxIso | apps/api/src/modules/fx-rates/application/fx-fetch.ts:66-72 | minIso and maxIso pick the earlier and the later day |
| Calendar.AddDays | apps/api/src/modules/fx-rates/application/fx-fetch.ts:60-64 | the result is an ISO date exactly n days away, also for negative n |
| Calendar.AddDaysComposes | apps/api/src/modules/fx-rates/application/fx-fetch.ts:60-64 | adding m and then n days is adding m + n, across months, leap days and years |
| Calendar.AddDaysUndone | apps/api/src/modules/fx-rates/application/fx-fetch.ts:60-64 | adding n days and then -n returns the same text |
| Calendar.TomorrowIsNextDay | apps/api/src/modules/fx-rates/application/fx-fetch.ts:60-64 | the successor date by the calendar's month lengths and leap years has the next day number |
| Calendar.AddDaysWalks | apps/api/src/modules/fx-rates/application/fx-fetch.ts:60-64 | adding n days is n steps of "tomorrow" in the written calendar, an independent definition |
| FxFilter.YearRange | apps/api/src/modules/fx-rates/application/fx-rates.service.ts:113-118 | the year filter selects exactly the dates of that year |
| FxFilter.MonthRange | apps/api/src/modules/fx-rates/application/fx-rates.service.ts:108-112 | the month filter selects exactly the dates of that month, December and leap February included |
| FxFilter.DayRange | apps/api/src/modules/fx-rates/application/fx-rates.service.ts:104-107 | the day filter selects exactly that date |
| FxFilter.FilterAgreesWithPrefix | apps/api/src/modules/fx-rates/application/fx-rates.service.ts:101-122 | the range filters and the `YYYY-` and `YYYY-MM-` prefix tests select the same dates |
| FxFilter.OfferedMonthsSelect | apps/api/src/modules/fx-rates/application/fx-rates.service.ts:186-195 | a month is offered exactly when filtering by it shows some stored date |
| FxFilter.OfferedDaysSelect | apps/api/src/modules/fx-rates/application/fx-rates.service.ts:196-209 | a day is offered exactly when filtering by it shows some stored date, which is that very date |
| FxFilter.OfferedYearsSelect | apps/api/src/modules/fx-rates/application/fx-rates.service.ts:183-185 | a year is offered exactly when filtering by it shows some stored date |
| FxFilter.FilterWithoutMonth | apps/api/src/modules/fx-rates/application/fx-rates.service.ts:101-122 | nothing asked filters nothing, a month or a day without a year is refused, and a day with a year but no month is ignored |
| FxFetch.DateChunks | apps/api/src/modules/fx-rates/application/fx-fetch.ts:78-89 | the loop ends, and its chunks name, in order, the spans of the day-number definition |
| FxFetch.SpansOrdered | apps/api/src/modules/fx-rates/application/fx-fetch.ts:78-89 | chunks are non-empty, at most chunkDays long, inside the range, and each starts right after the one before |
| FxFetch.SpansPartition | apps/api/src/modules/fx-rates/application/fx-fetch.ts:78-89 | a day is in the range exactly when some chunk holds it, and then only one does |
| FxFetch.FetchNbpTableRange | apps/api/src/modules/fx-rates/application/fx-fetch.ts:95-130 | the rows of the published days of the range: usable mids as reciprocals, then PLN as 1, day by day |
| FxFetch.FetchNbpHistory | apps/api/src/modules/fx-rates/application/fx-fetch.ts:133-165 | if every request is answered, exactly the rows of the range clamped to 2020-01-01 and today, as one request for the whole range would give; otherwise nothing |
| FxFetch.FetchFrankfurterHistory | apps/api/src/modules/fx-rates/application/fx-fetch.ts:167-231 | if every request is answered, a quote and day have a row, with the same first rate, exactly when one is published in the clamped range, the base currency included; otherwise nothing |
| FxFetch.RangeConcat | apps/api/src/modules/fx-rates/application/fx-fetch.ts:149-153 | the rows of adjacent ranges join to the rows of the whole range |
| FxFetch.LookupRange | apps/api/src/modules/fx-rates/application/fx-fetch.ts:133-165 | a fetched range holds a rate for a quote and day exactly when the day is in the range and the rate is published |
| FxFetch.PublishedFirst | apps/api/src/modules/fx-rates/application/fx-fetch.ts:113-127 | a quote's published rate is its first usable listing, reciprocal for NBP; the base counts 1 where it is not listed |
| FxFetch.PositiveListingsCount | apps/api/src/modules/fx-rates/application/fx-fetch.ts:111-121 | on a published day a foreign quote has a rate if and only if some listing of its upper-cased code has a positive value, and the rate is the first such listing, one over it from NBP; Frankfurter at lines 198-206 |
| FxFetch.BaseCountsOne | apps/api/src/modules/fx-rates/application/fx-fetch.ts:122-127 | where it is not listed the base counts 1, on every day NBP publishes and on every day Frankfurter lists a positive rate |
| FxFetch.SpansCount | apps/api/src/modules/fx-rates/application/fx-fetch.ts:149-153 | a history is asked for in as many requests as its days over 90, or 366, rounded up |
| FxFetch.BasesComplete | apps/api/src/modules/fx-rates/application/fx-fetch.ts:209-219 | adding the missing base rows at the end of all chunks equals adding them day by day |
| FxStore.InsertAllKey | apps/api/prisma/schema.prisma:1216-1236 | inserting with "skip duplicates" adds exactly the listed keys, keeps every stored rate, and a new key gets its first listed rate |
| FxStore.InsertAllConcat | apps/api/src/modules/fx-rates/application/fx-rates.service.ts:275-289 | inserting in batches is inserting at once |
| FxStore.InsertAllSame | apps/api/src/modules/fx-rates/application/fx-rates.service.ts:277-287 | two row lists with the same first rate for every quote and day give the same store |
| FxStore.Latest | apps/api/src/modules/fx-rates/application/fx-rates.service.ts:341-351 | the greatest stored day, and none only for an empty table |
| FxStore.Earliest | apps/api/src/modules/fx-rates/application/fx-rates.service.ts:341-351 | the least stored day, and none only for an empty table |
| FxStore.FxTable.PersistRates | apps/api/src/modules/fx-rates/application/fx-rates.service.ts:261-291 | batches of 1000 insert all rows first-write-wins, and the returned count is the growth of the table |
| FxStore.FxTable.RefreshTableStats | apps/api/src/modules/fx-rates/application/fx-rates.service.ts:293-310 | the cached earliest day, latest day and count are those of the table, and the error is cleared |
| FxStore.FxTable.FetchHistory | apps/api/src/modules/fx-rates/application/fx-rates.service.ts:378-387 | either provider: all published first rates of the clamped range, or nothing if a request failed |
| FxStore.FxTable.SyncRange | apps/api/src/modules/fx-rates/application/fx-rates.service.ts:376-392 | one range is absorbed whole, or not at all if a request of it failed |
| FxStore.FxTable.Sync | apps/api/src/modules/fx-rates/application/fx-rates.service.ts:318-412 | the table absorbs, in order, the planned ranges and the last week up to the first failing request; it succeeds exactly when no request failed, and only then refreshes the statistics |
| FxRuns.AbsorbAllKey | apps/api/src/modules/fx-rates/application/fx-rates.service.ts:376-410 | what a list of ranges adds: exactly the published, covered keys from 2020-01-01 to today that were not stored, as published |
| FxRuns.SyncGain | apps/api/src/modules/fx-rates/application/fx-rates.service.ts:354-410 | for any provider: a key is stored after a sync exactly when it was before or is published in the window the sync covers; stored rates never change |
| FxRuns.SyncStoresListings | apps/api/src/modules/fx-rates/application/fx-rates.service.ts:354-410 | after an answered sync a foreign quote is stored for a day if and only if it was before, or the day lies from 2020-01-01 to today, is beyond the latest stored, within the last seven days or before the earliest under backfill, and a listing of that day has the code and a positive value; what is new is the first such listing to eight decimals |
| FxRuns.RunKey | apps/api/src/modules/fx-rates/application/fx-rates.service.ts:277-287 | every run of every provider, corrections and withdrawals included: a key is stored exactly when it was before or some sync gained it, and a stored rate never changes |
| FxRuns.FirstGainStays | apps/api/src/modules/fx-rates/application/fx-rates.service.ts:394-410 | in every such run the rate kept is the one listed at the sync that first gained the key |
| FxRuns.RunComplete | apps/api/src/modules/fx-rates/application/fx-rates.service.ts:318-412 | provider in date order, syncs finishing or failing in any fetch: every reachable table holds exactly the published rates from 2020-01-01 to its latest day |
| FxRuns.SyncCatchesUp | apps/api/src/modules/fx-rates/application/fx-rates.service.ts:318-412 | after an answered sync of such a run the table also holds everything published up to today |
| FxRuns.RefreshAddsNothing | apps/api/src/modules/fx-rates/application/fx-rates.service.ts:394-410 | in such runs a sync equals absorbing the days after the latest one: refresh and backfill add nothing |
| FxRuns.OldRatesFinal | apps/api/src/modules/fx-rates/application/fx-rates.service.ts:318-412 | in such runs nothing up to the latest stored day ever changes, and that day never moves back |
| FxRuns.GapFilledWhen | apps/api/src/modules/fx-rates/application/fx-rates.service.ts:354-410 | every run of every provider: a key missing inside the stored history is stored later if and only if some sync is answered throughout on its day or in the week after it while the provider lists it |
| FxRuns.GapPermanent | apps/api/src/modules/fx-rates/application/fx-rates.service.ts:357-369 | so a key missing there that is older than every later refresh window stays missing |
| FxRuns.LateDayStoredWhen | apps/api/src/modules/fx-rates/application/fx-rates.service.ts:394-410 | a rate first published inside the stored history is stored if and only if some later sync is answered throughout on its day or in the week after it |
| FxRuns.LateDayLost | apps/api/src/modules/fx-rates/application/fx-rates.service.ts:394-410 | so it is never stored, though the provider goes on listing it, once every later sync comes more than a week after it |
| FxRuns.LostRate | apps/api/src/modules/fx-rates/application/fx-rates.service.ts:354-410 | a run that loses one: 2 January appears after 1 and 3 January are stored, and an answered sync with backfill nineteen days on does not store it |
| FxConvert.RateOnOrBefore | apps/api/src/modules/fx-rates/application/fx-convert.service.ts:81-100 | the stored rate of the newest day not after the given one, and none only when all are later |
| FxConvert.CrossReports | apps/api/src/modules/fx-rates/application/fx-convert.service.ts:158-202 | a conversion happens exactly when base and both rates are there and the source rate is not zero; the rate used, the older rate date and the rounded amount are characterised; otherwise the amount is unchanged |
| FxConvert.ConvertsAsAsked | apps/api/src/modules/fx-rates/application/fx-convert.service.ts:106-202 | source, target and table are the ones asked for, else the defaults, else EUR, EUR and ecb; the same currency passes through at rate 1, a missing table leaves the amount, otherwise the table answers: each refusal with its reason, else rate used times the source's newest rate is the target's, the older day, and the amount within half a unit |
| FxConvert.ConvertMany | apps/api/src/modules/fx-rates/application/fx-convert.service.ts:205-215 | one result per item, in order, each the item's own conversion |
| FxConvert.OldConversionsFinal | apps/api/src/modules/fx-rates/application/fx-convert.service.ts:81-203 | in-order provider: a result as of a day the table had reached, available or not, is the same after any further run |
| FxConvert.SyncKeeps | apps/api/src/modules/fx-rates/application/fx-rates.service.ts:277-287 | for any provider a sync keeps every stored rate |
| FxConvert.RateStays | apps/api/src/modules/fx-rates/application/fx-convert.service.ts:81-100 | so a rate found stays findable, at the same or a newer day |
| FxConvert.StaysAvailable | apps/api/src/modules/fx-rates/application/fx-convert.service.ts:165-185 | for any provider an available conversion stays available exactly when the newest source rate then found is not zero |
| FxArithmetic.ThereAndBack | apps/api/src/modules/fx-rates/application/fx-convert.service.ts:187-188 | converting by c and back by 1/c is exact for all amounts if and only if c >= 1 |
| FxArithmetic.RoundTrip | apps/api/src/modules/fx-rates/application/fx-convert.service.ts:187-188 | the same for two currencies of one table, and the error is always at most 1/2 + 1/(2c) |
| FxArithmetic.ThroughThird | apps/api/src/modules/fx-rates/application/fx-convert.service.ts:187-188 | A to B to C is within 1 + c/2 of A to C, c being the cross rate from B to C |
| FxArithmetic.SumOfConverted | apps/api/src/modules/fx-rates/application/fx-convert.service.ts:205-215 | the sum of n converted amounts is within (n + 1)/2 of the converted sum |
| FxArithmetic.StoredReciprocal | apps/api/src/modules/fx-rates/application/fx-rates.service.ts:283 | a reciprocal stored to eight decimals is zero if and only if the mid exceeds 2 * 10^8 |
| FxArithmetic.ReciprocalError | apps/api/src/modules/fx-rates/application/fx-rates.service.ts:283 | below that, dividing by the stored reciprocal is within x * mid^2 * d / (1 - d * mid) of multiplying by the mid, d = 5 * 10^-9 |
| FxArithmetic.NbpConversion | apps/api/src/modules/fx-rates/application/fx-convert.service.ts:165-188 | converting to PLN by a stored NBP rate is refused exactly above 2 * 10^8, and below lands within half a unit more than that bound |
| FxArithmetic.PublishedConversion | apps/api/src/modules/fx-rates/application/fx-convert.service.ts:81-203 | every in-order NBP run, as of any day the table has reached: converting to PLN works exactly when the newest published usable mid exists and is at most 2 * 10^8, and below lands within that bound of x times that mid |
| FxArithmetic.PublishedCross | apps/api/src/modules/fx-rates/application/fx-convert.service.ts:81-203 | any provider publishing in order, any two currencies, as of any day the table has reached: conversion works exactly when both are listed by then and the source rate does not store as zero; rate used and rate day are those of the newest listings, and the amount is within 1/2 + x * d * (p + q) / ((p - d) * p) of x * q / p for listed rates p and q |
| FxArithmetic.PublishedConvertOne | apps/api/src/modules/fx-rates/application/fx-convert.service.ts:106-203 | the same for convertOne, with the currencies and the table it settles on from the request and the defaults |
| Base32.ToBase32 | apps/api/src/common/totp.ts:72-88 | the wrapping accumulator produces the five-bit groups of section 6 of RFC 4648, without padding, for every input |
| Base32.FromBase32 | apps/api/src/common/totp.ts:90-106 | the wrapping accumulator reads the eight-bit groups of the symbols' bits, dropping a short rest |
| Base32.RoundTrip | apps/api/src/common/totp.ts:72-106 | decoding an encoding returns the bytes, for every byte sequence |
| Base32.Lenient | apps/api/src/common/totp.ts:90-97 | any ASCII text reads as the text upper-cased with everything outside the alphabet removed |
| Base32.NoiseIgnored | apps/api/src/common/totp.ts:96-97 | a character outside the alphabet may be inserted anywhere without effect |
| Base32.Canonical | apps/api/src/common/totp.ts:72-106 | re-encoding what was read returns the text exactly when fewer than five bits are left over and they are zero |
| Base32.SymbolBitsEncode | apps/api/src/common/totp.ts:84-86 | an encoding spells its bits, filled with zeros to a multiple of five |
| Base32.AlphabetSymbols | apps/api/src/common/totp.ts:3 | the 32 symbols are found at their own index, are upper case and are not padding |
| Bits.ShiftInWraps | apps/api/src/common/totp.ts:77 | shifting into the wrapped value equals shifting into the unbounded number and wrapping |
| Bits.LiveBits | apps/api/src/common/totp.ts:80 | the live bits read out of the wrapped value are those of the unbounded number |
| Totp.TruncateIsBigEndian | apps/api/src/common/totp.ts:63-68 | the offset never runs out of the 20 bytes, and the result is the big-endian value of the four bytes mod 2^31 |
| Totp.BigEndianReads | apps/api/src/common/totp.ts:60-61 | the counter bytes are the counter, big-endian |
| Totp.CodeIsSixDigits | apps/api/src/common/totp.ts:69 | a code is six decimal digits and reads as the truncated value mod 10^6 |
| Totp.Hotp | apps/api/src/common/totp.ts:58-70 | the code of the decoded secret and counter, and a failure exactly for counters outside 64 bits |
| Totp.VerifyTotp | apps/api/src/common/totp.ts:30-38 | accepts a six-digit text exactly when it is the code of a counter in the window, and throws only where the window reaches below zero |
| Totp.SpacesIgnored | apps/api/src/common/totp.ts:31 | white space anywhere in the typed code does not count, everything else does |
| Totp.StepWindow | apps/api/src/common/totp.ts:33-36 | counter k is within one step exactly from second 30 (k - 1) up to 30 (k + 2) |
| Totp.OwnCodeAccepted | apps/api/src/common/totp.ts:30-38 | a code for counter k is accepted exactly in those seconds, or where it coincides with a code of the window |
| Totp.SecretSpelling | apps/api/src/common/totp.ts:58-59 | the code does not depend on case, padding, spaces or dashes of the secret |
| Totp.SecretBytes | apps/api/src/common/totp.ts:13-16 | codes for an encoded secret are computed from the very bytes that were generated |
| RateLimit.Guard.CanActivate | apps/api/src/common/rate-limit.guard.ts:20-55 | admits, counts and opens windows as the step function on buckets says; a limit of zero or less admits everything; the retry time is that of the window |
| RateLimit.KeysIndependent | apps/api/src/common/rate-limit.guard.ts:32-42 | each decision equals that of a limiter that saw only this key's requests |
| RateLimit.BucketIsWindow | apps/api/src/common/rate-limit.guard.ts:37-42 | a bucket counts exactly the requests since the window was opened by the first request after expiry |
| RateLimit.PassesByWindow | apps/api/src/common/rate-limit.guard.ts:42-54 | a request is admitted exactly when fewer than max of its window came before it |
| RateLimit.LetThroughOnly | apps/api/src/common/rate-limit.guard.ts:32-42 | how many of a key's requests an interval admits depends on that key's requests only |
| RateLimit.IntervalBound | apps/api/src/common/rate-limit.guard.ts:20-55 | under a clock that never goes back, an interval of one window length admits at most 2 max requests of a key, and at most 2 max - 1 if one end is open (max for a window of one millisecond) |
| RateLimit.SlidesExactlyWhen | apps/api/src/common/rate-limit.guard.ts:12-15 | every half-open interval of one window length admits at most max requests of a key, as a sliding window promises, if and only if max is 1 or the window is one millisecond |
| RateLimit.ClosedBoundReached | apps/api/src/common/rate-limit.guard.ts:37-42 | 2 max is reached for every window and max |
| RateLimit.HalfOpenBoundReached | apps/api/src/common/rate-limit.guard.ts:37-42 | 2 max - 1 is reached for every window above one millisecond |
| RateLimit.RetryAfterHolds | apps/api/src/common/rate-limit.guard.ts:43-53 | a key that waits the announced seconds is admitted |
| RateLimit.KeysTellCallers | apps/api/src/common/rate-limit.guard.ts:31-34 | two callers share a window if and only if both are signed in with the same tenant and principal, the API key if there is one, else the user, or both are anonymous with the same address, forwarded address or neither; for tenants without a colon and other than "ip" |
| RateLimit.CallersIndependent | apps/api/src/common/rate-limit.guard.ts:31-54 | each caller is decided upon as if nobody else called |
| RateLimit.CallerBound | apps/api/src/common/rate-limit.guard.ts:20-55 | the interval bound for the visits of one caller among those of all |
| Contracts.Contract.UpdateFields | apps/api/src/modules/contracts/application/contracts.service.ts:223-259 | refused in approval and signature; otherwise only the edited fields change |
| Contracts.Contract.AmendFields | apps/api/src/modules/contracts/application/contracts.service.ts:261-324 | refused unless active; otherwise only the amended field changes |
| Contracts.Contract.MoveTo | apps/api/src/modules/contracts/application/contracts.service.ts:359-393 | moves along the allowed table only, touching nothing but the status |
| Contracts.Contract.StartApproval | apps/api/src/modules/contracts/application/contracts.service.ts:395-416 | a draft enters approval at stage 1; anything else is refused |
| Contracts.Contract.Advance | apps/api/src/modules/contracts/application/contracts.service.ts:418-466 | the next stage, and after the fifth a new envelope and pending signature |
| Contracts.Contract.RequestSignatures | apps/api/src/modules/contracts/application/contracts.service.ts:468-508 | waiting signers are asked, signed ones are kept; an absent envelope is created |
| Contracts.Contract.CheckSignatures | apps/api/src/modules/contracts/application/contracts.service.ts:510-549 | the first signer who has not signed signs; nothing changes when all have |
| Contracts.Contract.Complete | apps/api/src/modules/contracts/application/contracts.service.ts:551-607 | only fully signed envelopes complete: active, a start date, one executed document |
| Contracts.UpdateWhen | apps/api/src/modules/contracts/application/contracts.service.ts:231-250 | an edit is taken if and only if the contract is not in approval or signature, and then the row has exactly the given fields |
| Contracts.AmendWhen | apps/api/src/modules/contracts/application/contracts.service.ts:275-300 | an amendment is taken on active contracts only and changes nothing else |
| Contracts.MoveWhen | apps/api/src/modules/contracts/application/contracts.service.ts:367-384 | what may be moved where: anything not ended can be cancelled, only an active contract expires; nothing but the status changes |
| Contracts.SendWhen | apps/api/src/modules/contracts/application/contracts.service.ts:474-493 | a sending is taken while signature is pending; it stamps its time, asks whoever has not signed and keeps who has |
| Contracts.CheckWhen | apps/api/src/modules/contracts/application/contracts.service.ts:525-538 | a check signs the first signer who has not signed, with its time, and changes nothing else |
| Contracts.CheckNothing | apps/api/src/modules/contracts/application/contracts.service.ts:513-528 | a check of a fully signed envelope is taken and changes nothing |
| Contracts.CompleteWhen | apps/api/src/modules/contracts/application/contracts.service.ts:559-590 | a completion is taken if and only if signature is pending and all have signed; it activates, fills an absent start date and files the named document, or one named after the contract |
| Contracts.FrozenInApproval | apps/api/src/modules/contracts/application/contracts.service.ts:231-239 | in every run, from entering approval until the row returns to draft or leaves signature, owner, vendor and start date do not change, a completion that fills an absent start date apart |
| Contracts.SignedByParties | apps/api/src/modules/contracts/application/contracts.service.ts:428-440 | in every such run the parties asked to sign are those of the row that was sent for approval |
| Contracts.RunKeeps | apps/api/src/modules/contracts/application/contracts.service.ts:359-607 | in every run, transitions included: stage in 0..5, no envelope before signature, three signers with the signed ones first, completed only when all signed and only in active, expired or cancelled, one executed document exactly when completed |
| Contracts.EnvelopeHistory | apps/api/src/modules/contracts/application/contracts.service.ts:468-607 | in every run an envelope is never replaced: same signers, signatures and their times stay, a completed one is final |
| Contracts.FewChangesLeft | apps/api/src/modules/contracts/application/contracts.service.ts:367-374 | after draft and approval the status never returns there and changes at most twice more |
| Contracts.ApprovalProgress | apps/api/src/modules/contracts/application/contracts.service.ts:395-607 | without transitions, a row's status tells exactly what happened: active means one send, five approvals, three signatures, one completion |
| Contracts.ActiveBySignature | apps/api/src/modules/contracts/application/contracts.service.ts:359-607 | in every run an active or expired contract has a completed, fully signed envelope if and only if no transition activated it |
| Contracts.TransitionBypasses | apps/api/src/modules/contracts/application/contracts.service.ts:359-384 | two transitions activate a draft with no approval and no envelope |
| Contracts.SentWhenAsked | apps/api/src/modules/contracts/application/contracts.service.ts:468-508 | in every run, transitions included, an envelope was sent if and only if a request to send it came while signature was pending |
| Contracts.CompletesUnsent | apps/api/src/modules/contracts/application/contracts.service.ts:510-590 | a run that never sends the envelope still signs and completes it |
| ContractOverlap.RunSound | apps/api/src/modules/contracts/application/contracts.service.ts:223-607 | every interleaving of the endpoints' reads and updates keeps the stage in 0..5 and the envelope well formed: three signers, the signed first, completed only when all signed |
| ContractOverlap.OtherColumnsStay | apps/api/src/modules/contracts/application/contracts.service.ts:223-607 | an update leaves the columns it did not compute as it finds them |
| ContractOverlap.ExecutedCounts | apps/api/src/modules/contracts/application/contracts.service.ts:574-593 | in every interleaving the executed documents are as many as the completions that update, so at most one exactly when at most one completion does |
| ContractOverlap.SerialRun | apps/api/src/modules/contracts/application/contracts.service.ts:223-607 | if every update finds the row its request read, the interleaving equals the sequential run of the requests in the order of their updates |
| ContractOverlap.SerialKeeps | apps/api/src/modules/contracts/application/contracts.service.ts:223-607 | so the whole sequential invariant then holds |
| ContractOverlap.CompletedTwice | apps/api/src/modules/contracts/application/contracts.service.ts:551-593 | two overlapping completions of one signed envelope file two documents |
| ContractOverlap.SignedOnce | apps/api/src/modules/contracts/application/contracts.service.ts:510-538 | two overlapping signature checks add one signature |
| ContractOverlap.DraftWithEnvelope | apps/api/src/modules/contracts/application/contracts.service.ts:359-440 | the last approval overtaken by a move to draft leaves a draft with an envelope |
| ContractOverlap.CompletedUndone | apps/api/src/modules/contracts/application/contracts.service.ts:468-593 | a completion overtaken by a sending leaves an active contract whose envelope is not completed |
| EmailIngest.RunKeeps | apps/api/src/modules/capture/application/capture.service.ts:78-166 | in every interleaving with any failures: unique rows, one working call per row, one upload per row, invoices of own uploads only |
| EmailIngest.AtMostOnce | apps/api/src/modules/capture/application/capture.service.ts:92-134 | each tenant and message id has at most one row and at most one upload, and a completed row carries its own upload's invoice |
| EmailIngest.SettledFinal | apps/api/src/modules/capture/application/capture.service.ts:100-165 | a row no call works on any more never changes and gets no further upload, failed ones included |
| EmailIngest.LateCallIsDuplicate | apps/api/src/modules/capture/application/capture.service.ts:100-107 | a call that arrives and looks at once, with its row settled, is answered as a duplicate with the row's status and invoice |
| EmailIngest.UploadsWhenFirst | apps/api/src/modules/capture/application/capture.service.ts:109-127 | in every interleaving a call goes on to its upload if and only if its insert found no row for its message |
| EmailIngest.LateCalls | apps/api/src/modules/capture/application/capture.service.ts:92-107 | in every interleaving a call that arrives when its message has a row uploads nothing and, if answered, is a duplicate of that row, with the final status and invoice once the row is settled |
| EmailIngest.IngestedAnswers | apps/api/src/modules/capture/application/capture.service.ts:149-154 | in every interleaving a call answered with an invoice gets the one it uploaded itself, for its own message |
| EmailIngest.IngestSucceedsWhen | apps/api/src/modules/capture/application/capture.service.ts:119-165 | in every interleaving a returned call that went on to upload is answered with its invoice if and only if none of its operations after that failed, and then its row is completed with it; when one failed it throws, and its row is failed if and only if the update that marks it went through |
| EmailIngest.AloneSucceeds | apps/api/src/modules/capture/application/capture.service.ts:92-154 | undisturbed, a message without a row is ingested: its row, its upload and its invoice, in six moves |
| EmailIngest.MovesReturn | apps/api/src/modules/capture/application/capture.service.ts:78-166 | every move of a call brings it nearer its return |
| ExtractionCache.FindCached | apps/api/src/modules/capture/application/document-extraction.service.ts:33-42 | an asset with a payload for tenant and hash, the latest extracted, and none only when there is none |
| ExtractionCache.DocumentExtraction.ExtractDocument | apps/api/src/modules/capture/application/document-extraction.service.ts:71-177 | the create-then-update steps give the state and answer of the extraction function, refusals and provider failures included |
| ExtractionCache.RunPayloads | apps/api/src/modules/capture/application/document-extraction.service.ts:104-167 | in every run each stored payload was answered to an upload of that content, and each answer is stored |
| ExtractionCache.CachedIffEarlier | apps/api/src/modules/capture/application/document-extraction.service.ts:110-127 | an answer comes from the cache exactly when an earlier upload of the content was answered, and then repeats such an answer |
| ExtractionCache.AnswersAgree | apps/api/src/modules/capture/application/document-extraction.service.ts:105-127 | all answers for one tenant and content hash are equal |
| ExtractionCache.ProviderIffFirst | apps/api/src/modules/capture/application/document-extraction.service.ts:129-176 | the provider answers exactly the first answered upload of a content |
| ExtractionCache.TypeOfFirst | apps/api/src/modules/capture/application/document-extraction.service.ts:33-42 | an answer has the requested document type exactly when the first answered upload of the content asked for that type |
| ExtractionCache.ContractReadAsInvoice | apps/api/src/modules/capture/application/document-extraction.service.ts:104-127 | a file read as an invoice and uploaded again as a contract is answered as an invoice |
| ExtractionCache.MeterCountsProviderPages | apps/api/src/modules/capture/application/document-extraction.service.ts:169 | the page meter of a tenant and month is the sum of pages over provider-served uploads only |
| ExtractionCache.AnsweredWhen | apps/api/src/modules/capture/application/document-extraction.service.ts:87-176 | an upload is answered if and only if it has bytes and a supported type and its content was answered before or the provider reads it; what the provider reads is returned as it is, under the asked type |
| ExtractionCache.PagesStarted | apps/api/src/modules/capture/application/document-extraction.service.ts:57 | one page for every started 50,000 bytes, and at least one |
| ExtractionCache.AssetOfUpload | apps/api/src/modules/capture/application/document-extraction.service.ts:107-167 | in every run each upload that is taken has its own asset: its content, its pages and what it was answered |
| ExtractionCache.RunStamps | apps/api/src/modules/capture/application/document-extraction.service.ts:112-119 | in every run all payloads of a content carry the time the provider read it |
| ExtractionOverlap.RunKeeps | apps/api/src/modules/capture/application/document-extraction.service.ts:104-176 | in every interleaving with any failures each stored payload and each answer is what the provider read for some call of the same content |
| ExtractionOverlap.AgreeWhenReadingsDo | apps/api/src/modules/capture/application/document-extraction.service.ts:104-176 | in every interleaving the payloads of a content agree if and only if everything the provider read for it does, and then all answers agree |
| ExtractionOverlap.BoundOverlap | apps/api/src/modules/capture/application/document-extraction.service.ts:105-129 | two calls of one content that both go to the provider overlapped: one looked while the other had found nothing and not saved |
| ExtractionOverlap.ReadOnceWhen | apps/api/src/modules/capture/application/document-extraction.service.ts:105-167 | in every interleaving a content is read and saved at most once if and only if no two of its calls that saved overlapped |
| ExtractionOverlap.ReadOnceAgrees | apps/api/src/modules/capture/application/document-extraction.service.ts:105-176 | and then its payloads and its answers agree |
| ExtractionOverlap.MeterCountsSaves | apps/api/src/modules/capture/application/document-extraction.service.ts:169 | in every interleaving the meter of a tenant and month is the pages of the calls that counted, each of which saved a reading and counted once |
| ExtractionOverlap.AnsweredUnlessFailed | apps/api/src/modules/capture/application/document-extraction.service.ts:104-176 | in every interleaving a returned call was answered if and only if none of its operations failed and the provider, if asked, could read the document, and by the provider if and only if it saved the reading |
| ExtractionOverlap.MovedStores | apps/api/src/modules/capture/application/document-extraction.service.ts:107-167 | a call's asset is created bare for its content, then given what was found or what was read |
| ExtractionOverlap.MovesReturn | apps/api/src/modules/capture/application/document-extraction.service.ts:71-177 | every move of a call brings it nearer its return |
| ExtractionOverlap.ReadTwice | apps/api/src/modules/capture/application/document-extraction.service.ts:104-176 | an interleaving in which two uploads of one content are both read, answered with their own readings and both counted |
| VendorMatch.NormalizeTidies | apps/api/src/modules/capture/application/vendor-match.ts:26-32 | a normalised name has only lower-case letters, digits and single inner spaces |
| VendorMatch.NormalizeIdempotent | apps/api/src/modules/capture/application/vendor-match.ts:26-32 | normalising twice is normalising once, and tidy names are fixed |
| VendorMatch.NormalizeKeepsLetters | apps/api/src/modules/capture/application/vendor-match.ts:26-32 | normalising keeps exactly the letters and digits, lower-cased, in order |
| VendorMatch.QualifiesWhen | apps/api/src/modules/capture/application/vendor-match.ts:5-24 | the threshold is reached exactly for equal or containing non-empty names or token overlap of at least 0.6; 100 exactly for equality, 85 exactly for a proper prefix; scores lie in 0..100 |
| VendorMatch.ScoreTiers | apps/api/src/modules/capture/application/vendor-match.ts:9-23 | every tier: 0, 100, 85, 70, 55 + 20 r or 40 + 20 r to the nearest, for the ratio r |
| VendorMatch.RatioShares | apps/api/src/modules/capture/application/vendor-match.ts:16-20 | the ratio times the larger of the numbers of distinct words of the one name and words of the other is the number of its words found, of words longer than one character |
| VendorMatch.SplitWords | apps/api/src/modules/capture/application/vendor-match.ts:16-17 | a name is cut at every space and nowhere else |
| VendorMatch.TokensOutrankContainment | apps/api/src/modules/capture/application/vendor-match.ts:13-21 | without containment, token overlap scores above containment's 70 exactly from a ratio of 0.775 |
| VendorMatch.WordOrderOutranks | apps/api/src/modules/capture/application/vendor-match.ts:16-21 | two swapped words score 75 |
| VendorMatch.UploadVendor | apps/api/src/modules/capture/application/capture.service.ts:202-216 | the server's loop chooses the leftmost vendor of maximal qualifying score, or none only if none qualifies |
| VendorMatch.BestVendorMatch | apps/web/src/shared/ui/vendorMatch.ts:29-40 | the client's loop meets the same description |
| VendorMatch.ChoiceUnique | apps/web/src/shared/ui/vendorMatch.ts:29-40 | that description fits one choice only, so server and client agree |
| LedgerBudget.CellReads | docs/Gabi_draft/js/views/reporting.js:247 | a cell reads what was entered under its entity, department and month, or 0, and entering one leaves the others |
| LedgerBudget.DeptRows | docs/Gabi_draft/js/views/reporting.js:245-250 | each department row is the year-to-date sum of its cells over the entities in scope |
| LedgerBudget.MonthRows | docs/Gabi_draft/js/views/reporting.js:258-267 | each month row is the sum of that month's cells over entities and departments |
| LedgerBudget.ViewsAgree | docs/Gabi_draft/js/views/reporting.js:245-267 | the department rows and the month rows have the same total |
| LedgerBudget.CategoriesAddUp | docs/Gabi_draft/js/views/reporting.js:253-256 | the category budgets add up to the total budget exactly when something was spent or the budget is zero |
| LedgerBudget.Rekey | docs/Gabi_draft/js/modal.js:410-412 | for all names and listing orders: what is not written over stays or goes as it should and no other key appears; and every cell of the old name is under its new key with its own amount if and only if none moves onto a key of the old name that is still to be moved, its own included |
| LedgerBudget.Landed | docs/Gabi_draft/js/modal.js:410-412 | a moved cell stands under its new key, with the amount it had at its turn, exactly until that key's own turn |
| LedgerBudget.NestedNameLoses | docs/Gabi_draft/js/modal.js:410-412 | two cells under a name that the new name reaches into: in one listing order the second amount is lost, in the other both arrive |
| LedgerBudget.PlainNamesInTime | docs/Gabi_draft/js/modal.js:410-412 | different names without the separator, the new one without replacement patterns: every amount arrives in every listing order |
| LedgerBudget.RenamedApart | docs/Gabi_draft/js/modal.js:411 | whatever the names, two cells of the old name get different new keys |
| LedgerBudget.ReplacesLiterally | docs/Gabi_draft/js/modal.js:411 | String.replace puts a new name as it stands, for all keys, if and only if no dollar sign in it is followed by another, an ampersand, a backquote or an apostrophe |
| LedgerBudget.PatternsExpand | docs/Gabi_draft/js/modal.js:411 | each pattern of String.replace, and a dollar sign that is none |
| LedgerBudget.CellsOfEntity | docs/Gabi_draft/js/modal.js:410-412 | for names without the separator, the keys under a name are that entity's own |
| LedgerBudget.RenameMovesCells | docs/Gabi_draft/js/modal.js:401-414 | after a rename the old name is empty, no other entity changes, the new name has the old amounts, and a cell's two amounts are kept together exactly when the old name had no such cell or the new one had nothing in it |
| LedgerAccruals.Accruals.Generate | docs/Gabi_draft/js/data.js:204-221 | the loop is the generate step of the run theorem: one accrual per open order refreshed or drafted, the drafted ones counted |
| LedgerAccruals.Accruals.Send | docs/Gabi_draft/js/drawer.js:252-256 | the send step of the run theorem: a draft goes under approval at stage 1, nothing else changes |
| LedgerAccruals.Accruals.Advance | docs/Gabi_draft/js/drawer.js:257-264 | the advance step of the run theorem: the next stage, approved after the last one |
| LedgerAccruals.Accruals.Edit | docs/Gabi_draft/js/views/pr.js:104 | the edit step of the run theorem: the amount of an accrual that is not posted is replaced |
| LedgerAccruals.Accruals.Post | docs/Gabi_draft/js/drawer.js:265-269 | the post step of the run theorem: only an approved accrual is posted |
| LedgerAccruals.RunKeeps | docs/Gabi_draft/js/drawer.js:252-269 | in every run of the offered steps, amount edits included, an order has at most one accrual that is not posted, and stages match statuses |
| LedgerAccruals.GenerateUpToDate | docs/Gabi_draft/js/data.js:206-219 | after generating, every order with something left has an open accrual for exactly that amount |
| LedgerAccruals.GenerateTwice | docs/Gabi_draft/js/data.js:204-221 | generating again with the same orders changes nothing |
| LedgerAccruals.NewDrafts | docs/Gabi_draft/js/data.js:209-218 | generating keeps the existing accruals but for amounts; new ones are drafts and take the numbers that follow |
| LedgerAccruals.ApprovalWay | docs/Gabi_draft/js/drawer.js:252-269 | a draft sent, approved twice and posted passes through its stages with order, number and amount unchanged |
| LedgerAccruals.StepsInTurn | docs/Gabi_draft/js/views/pr.js:104-109 | no step is taken out of turn, and an amount is edited exactly until posting |
| LedgerPayments.Payments.Export | docs/Gabi_draft/js/modal.js:361-374 | one payment per listed invoice that exists, appended in order; those invoices are set to paid |
| LedgerPayments.PaidExactly | docs/Gabi_draft/js/modal.js:363-366 | exactly the listed invoices become paid, and nothing else of any invoice changes |
| LedgerPayments.SubmittedWhen | docs/Gabi_draft/js/modal.js:353-358 | there is a proposal exactly when something was checked, and it names what was |
| LedgerPayments.PaymentsNamed | docs/Gabi_draft/js/modal.js:363-368 | the payments are for exactly the listed invoices, each by its id and amount |
| LedgerPayments.OnePaymentEach | docs/Gabi_draft/js/modal.js:363-368 | one payment for each listing of an invoice that exists |
| LedgerPayments.ExportPaysTotal | docs/Gabi_draft/js/modal.js:361-368 | the payments for distinct ids sum to the amounts of the invoices they name, which is how a proposal's total is computed |
| LedgerPayments.ProposalPaid | docs/Gabi_draft/js/modal.js:350-374 | the payments an export adds sum to the total the proposal was stored with, whatever was exported in between |

## Left out

- HTTP, Prisma, files, audit records, notifications, controllers and guards wiring: their effect appears as maps, sequences and failing steps.
- FxStore.FxTable.Sync: does not model a failure while a fetched range is being stored, nor a provider that changes during one sync; the clock is read once per sync, and the tenant and entity bookkeeping after line 412 is not modelled.
- FxStore.FxTable.SyncRange: a failure while the fetched rows are being stored is not modelled.
- FxFetch.FetchNbpHistory: the result's label and dates, which no caller of the sync reads, are not modelled.
- FxFetch.FetchFrankfurterHistory: the same; of rows for one quote and day only the first is fixed, which is all that a "skip duplicates" insert keeps.
- FxStore.FxTable.FetchHistory: providers are asked with a fixed list of quotes and answer only days inside the request; the pauses between requests and the result's label and dates are not modelled.
- FxFetch.DateChunks: dates stay within four-digit years, so the last chunk may not end within one chunk length of the year 10000; the same holds for the fetch and sync methods that use it.
- FxStore.FxTable.PersistRates: the overflow of the DECIMAL(18, 8) column and the rows' base currency column, which is not in the unique key, are not modelled.
- The branch at fx-rates.service.ts:366-368, which asks for a backfill when there is a latest but no earliest day: it cannot be reached.
- FxFilter.FilterAgreesWithPrefix: years 1000 to 9999 (the controller refuses years before 2020); days that a month does not have, such as 31 February, are not modelled, and paging and the rate list of getTable are left out.
- FxConvert.ConvertMany: the lookup of the tenant's or entity's default currency and provider is a parameter; attachReporting, which calls convertOne per row, would add only easy members.
- FxArithmetic.ThereAndBack: exact reals; the rounding of IEEE doubles in rates and products is not modelled, and neither is the case of toFixed on a double that is not the exact decimal.
- Base32.FromBase32: upper-casing as for Base32.Lenient.
- Base32.Lenient: upper-casing is modelled for ASCII text; other characters whose upper case is an ASCII letter are not modelled.
- Totp.Hotp: HMAC-SHA1 is any function from key and counter bytes to 20 bytes; AES-GCM, scrypt and the otpauth link are left out.
- RateLimit.Guard.CanActivate: the limit and window are integers read once; non-numeric settings, which switch the guard off or leave it without expiry, and fractions are not modelled, nor is the growth of the bucket map.
- RateLimit.KeysTellCallers: a tenant id with a colon or equal to "ip" could share a key with another caller; tenant ids are UUIDs.
- Contracts.Contract.UpdateFields: of the editable fields only owner, vendor and start date, by the values they end with; renewal, comments, documents added or removed by hand, red flags, intake and the envelope id are left out.
- Contracts.Contract.AmendFields: of the amendable fields only the start date.
- Contracts.Contract.RequestSignatures: the envelope id, a label made from the clock, is not modelled.
- Contracts.RunKeeps: requests one after another; ContractOverlap has what survives when they overlap.
- ContractOverlap.RunSound: a read and an update are one step each; that the row is found again by its id, and failures between the two, which leave the row as it is, are not modelled.
- EmailIngest.LateCallIsDuplicate: one call whose lookup follows its arrival; EmailIngest.LateCalls is the statement over interleavings.
- EmailIngest.RunKeeps: each database operation is one atomic step on values; the mailbox lookup, the sender and subject and the error text are left out.
- ExtractionCache.DocumentExtraction.ExtractDocument: uploads run one after another (ExtractionOverlap interleaves them); among assets extracted at the same time any one may be the newest, the stored full text and provider label are not modelled, and counting usage does not fail.
- VendorMatch.NormalizeTidies: lower-casing is modelled for ASCII text.
- LedgerBudget.Rekey: the rewriting of vendors, requests, orders and invoices is one field assignment each and left out.
- LedgerBudget.RenameMovesCells: names without the separator, the new one without replacement patterns; for other names the keys of different entities are not apart.
- LedgerBudget.DeptRows: amounts are exact reals, here and in LedgerAccruals and LedgerPayments, where the code has doubles.
- LedgerAccruals.Accruals.Generate: only order, amount, status and stage of an accrual.
- LedgerAccruals.Accruals.Advance: the steps are those the screens offer, each behind the status that shows its button; dates, vendor, department and category of an accrual are left out.
- LedgerPayments.Payments.Export: payment ids, dates, bank file names and repeated exports of one proposal are left out.
- LedgerBudget.MonthRows: the actual columns of the report and the monthly expense pivot of reportMonthlyExpense, which are plain sums over filtered lists, are left out.
- Extraction by regular expressions, red-flag phrases, entity scoping, licences, scopes, the bootstrap gate and all screens: short branches or user interface.

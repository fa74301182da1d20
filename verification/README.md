# HubSpot-to-BigQuery deal snapshot ETL, modelled in Dafny

This project models the core of a daily ETL job. The job reads a sales
pipeline's deals, owners, contacts and meetings from the HubSpot CRM API. It
turns each deal into one snapshot row with derived fields: stage and pipeline
labels, owner, primary contact, day counts, won/lost/open status, weighted
amount and a Green/Yellow/Red age status. It then replaces the snapshot day's
rows in two BigQuery tables by deleting that day and appending the new batch.

The project also models two consumers of those tables:

- the SQL risk view that flags deals as at risk, together with the
  meeting join it relies on;
- the daily report's quarter-target arithmetic and its change formatter.

The API, the warehouse and Python's `float()` never appear as code. They enter
as values:

- API listings are sequences of pages, each served or failed.
- Retried calls are scripts of attempts, or oracles indexed by attempt number.
- `float()` is a partial reader `string -> Option<real>`.
- The warehouse fault is a parameter saying where, if anywhere, a load fails.
- Sleeps are returned as waits in seconds rather than taken.
- The clock is a parameter: the snapshot instant, or the current day.

Instants are whole microseconds since the Unix epoch, in UTC. `datetime` keeps
microseconds, so a millisecond clock would lose the fractional seconds that
the ISO formats accept. Money is an exact `real`.

Modules, in dependency order:

| file | module | what it holds |
|---|---|---|
| wrappers.dfy | Wrappers | `Option` |
| text.dfy | Text | substring search, lower-casing, digits, replace, strip, split/join |
| properties.dfy | Properties | a record's property map |
| calendar.dfy | Calendar | proleptic Gregorian days, instants, `.days` of a difference |
| backoff.dfy | Backoff | powers of two for the exponential back-offs |
| strptime.dfy | Strptime | the fragment of `datetime.strptime` the formats use |
| timestamps.dfy | Timestamps | `convert_hubspot_timestamp` |
| coerce.dfy | Coerce | `safe_float`, `safe_int` |
| deal_age.dfy | DealAge | `calculate_deal_age_status` |
| paging.dfy | Paging | cursor-paged listings that stop at a failure or the last page |
| reference_data.dfy | ReferenceData | `fetch_pipelines`, `fetch_owners` |
| deal_fetch.dfy | DealFetch | `fetch_all_deals` with its retry loop |
| contacts.dfy | Contacts | `fetch_associated_contacts` with its two retry loops |
| deal_transform.dfy | DealTransform | `transform_deals` |
| meetings.dfy | Meetings | `fetch_all_meetings`, `transform_meetings` |
| snapshot_load.dfy | SnapshotLoad | `load_to_bigquery`, `load_meetings_to_bigquery` |
| orchestrator.dfy | Orchestrator | `hubspot_to_bigquery_etl` |
| risk_view.dfy | RiskView | the `v_deals_at_risk` view and the `deal_meetings` join |
| targets.dfy | Targets | `calculate_target_metrics`, `_format_change` |

## Model

| member | source | states |
|---|---|---|
| Properties.Value | etl-pipeline/main.py:1022-1027 | a property read gives a value exactly when the key is present, and then the stored value |
| Text.Strip | etl-pipeline/main.py:357 | the stripped text neither starts nor ends with whitespace |
| Text.StripExactly | etl-pipeline/main.py:357 | `strip()` keeps a contiguous middle of the text and drops only whitespace before and after it |
| Calendar.DaysInMonth | etl-pipeline/main.py:238 | every month has between 28 and 31 days, the range `strptime` checks a day against |
| Calendar.EpochIsDayZero | etl-pipeline/main.py:225 | the day count is anchored at 1970-01-01, the epoch of the millisecond timestamps |
| Calendar.DaysBetween | etl-pipeline/main.py:1069-1096 | `.days` of a difference is its floor in whole days: the day count times a day is at most the difference and one more day exceeds it |
| Calendar.DayOf | etl-pipeline/main.py:1011 | the snapshot date is the UTC calendar day containing the instant |
| Backoff.Pow2Add | etl-pipeline/main.py:473-476 | powers of two multiply as their exponents add, so each further failed attempt doubles the `2 ** attempt` wait |
| Timestamps.Convert | etl-pipeline/main.py:217-247 | a missing or empty value is None; an all-digit value is milliseconds since the epoch, None when out of range; text with neither 'T' nor '-' is None |
| Timestamps.EpochMillisRoundTrip | etl-pipeline/main.py:223-226 | every in-range millisecond count written in decimal converts to its own instant, computed exactly (see "Left out" for the floating-point division) |
| Timestamps.IsoRoundTrip | etl-pipeline/main.py:228-244 | a zero-padded ISO-8601 rendering, date-only, to seconds or to microseconds, with no zone, "Z" or "+00:00", converts to the instant it denotes |
| Timestamps.ShortFractionRoundTrip | etl-pipeline/main.py:228-244 | a rendering to seconds followed by a fraction of one to six digits, such as HubSpot's milliseconds ".123Z", converts to the instant it denotes when the dropped digits are zeros |
| Timestamps.UtcDesignatorsAgree | etl-pipeline/main.py:237 | "Z", "+00:00" and no designator at all are read alike |
| Timestamps.OtherOffsetRejected | etl-pipeline/main.py:237-247 | a timestamp ending in a positive offset "+hh:mm" other than "+00:00" converts to None, whatever precedes it |
| Timestamps.NegativeOffsetRejected | etl-pipeline/main.py:237-247 | a timestamp ending in a negative offset "-hh:mm", "-00:00" included, converts to None, whatever precedes it |
| Timestamps.FormatsTried | etl-pipeline/main.py:229-235 | the five formats, with 'Z' removed, are microseconds, seconds, microseconds, seconds and date-only, in that order |
| Timestamps.ReadRendering | etl-pipeline/main.py:228-244 | the first format that accepts a rendering is the one of its own precision, and it yields the rendering's instant |
| Timestamps.ConvertDateLike | etl-pipeline/main.py:237-238 | for date-like text the normaliser only strips the UTC designator before the formats are tried |
| Timestamps.PlusSurvivesReplace | etl-pipeline/main.py:237 | a '+' that does not start "+00:00" survives the normalisation |
| Timestamps.FirstParseRejectsPlus | etl-pipeline/main.py:238-242 | no format accepts text containing '+' |
| Strptime.CandidatesAreMatches | etl-pipeline/main.py:238 | the group lengths a directive may take are exactly the lengths of its alternatives that match the text: each candidate comes from a matching alternative, and every matching alternative is a candidate |
| Strptime.CandidateChars | etl-pipeline/main.py:238 | a directive's digit group takes only digits, or a leading space where `strptime` allows one |
| Strptime.MatchTail | etl-pipeline/main.py:238 | a successful match of a format reaches every suffix of the format: some suffix of the text matches it and leaves the same text unconsumed |
| Strptime.CandidatesIgnoreSuffix | etl-pipeline/main.py:238 | the digit group a directive takes depends only on the text it reads, not on what follows |
| Coerce.SafeFloat | etl-pipeline/main.py:921-928 | None for a missing or empty value or an unreadable one, otherwise the reader's number |
| Coerce.SafeInt | etl-pipeline/main.py:931-938 | a number exactly when `safe_float` gives one, and then that float truncated |
| Coerce.Truncate | etl-pipeline/main.py:936 | `int()` of a float moves toward zero by less than one |
| Coerce.SafeIntAgreesWithSafeFloat | etl-pipeline/main.py:931-938 | `safe_int` is `safe_float` truncated toward zero: the floor of a non-negative float, the ceiling of a negative one, never further from zero |
| Coerce.TruncateTowardZero | etl-pipeline/main.py:936 | truncation never increases the magnitude and never changes the sign |
| DealAge.BucketOf | etl-pipeline/main.py:950-990 | the first matching keyword list decides the bucket: stalled exactly when the lower-cased label mentions "stalled" or "delayed"; otherwise early exactly when it mentions an early word, mid exactly when it mentions a mid word and no early one, late exactly when it mentions a late word and no early or mid one, and the default bucket exactly when it mentions none |
| DealAge.AgeStatusOf | etl-pipeline/main.py:941-996 | Unknown exactly when the day count is missing; a stalled or delayed stage is never Green |
| DealAge.SeverityMonotone | etl-pipeline/main.py:953-996 | for a fixed stage, more days never give a healthier status |
| DealAge.ThresholdsInclusive | etl-pipeline/main.py:954-996 | each threshold is inclusive: the limit day is in the healthier band, the next day in the next band |
| DealAge.StalledWins | etl-pipeline/main.py:950-957 | a label mentioning "Stalled" in any case is never Green, whatever other keywords it has |
| Paging.Requested | etl-pipeline/main.py:363-366 | the listing requests pages up to and including the first that stops it, and no page before that one stops it |
| Paging.CollectIsRequestedItems | etl-pipeline/main.py:347-370 | a listing returns exactly the items of the pages it requested, in order |
| Paging.CollectIgnoresLaterPages | etl-pipeline/main.py:363-370 | pages after the one that stops a listing are never requested |
| ReferenceData.StageLabels | etl-pipeline/main.py:318-327 | every stage id is in the label map, and every key there belongs to some stage |
| ReferenceData.FetchPipelines | etl-pipeline/main.py:293-338 | a failed listing gives an empty catalog with no target; otherwise the pipeline map's keys are the listed ids |
| ReferenceData.TargetIsLastMatch | etl-pipeline/main.py:303-309 | there is no target exactly when no pipeline has the target name; otherwise the target is the last pipeline with that name |
| ReferenceData.StagesPointBack | etl-pipeline/main.py:318-327 | the flat stage map over all listed pipelines holds every stage of every pipeline, and each entry points back to a listed pipeline holding a stage with that id and label at the recorded position |
| ReferenceData.ActiveEntry | etl-pipeline/main.py:357-362 | an active owner's name is their display name, or a non-empty fallback when that is empty |
| ReferenceData.ArchivedEntry | etl-pipeline/main.py:382-389 | an archived owner's name carries the archived suffix once; a nameless one is "Unknown (Archived)" |
| ReferenceData.NamelessArchivedTwice | etl-pipeline/main.py:385-387 | as written, a nameless archived owner shows the suffix twice; the corrected entry shows it once |
| ReferenceData.AddActiveKeys | etl-pipeline/main.py:355-362 | the active listing adds exactly its ids and leaves other entries alone |
| ReferenceData.AddActiveLastWins | etl-pipeline/main.py:355-362 | an active owner listed twice keeps their last record |
| ReferenceData.AddArchivedSpec | etl-pipeline/main.py:382-390 | archived owners fill in only unknown ids, an earlier archived record winning, under whichever rule builds the archived entry (the program's or the corrected one); known entries never change |
| ReferenceData.OwnersMerge | etl-pipeline/main.py:341-403 | for either archived-entry rule, the directory's ids are the active ids plus the archived ids; an id in both keeps its last active entry; an id listed only as archived gets the entry of its first archived record |
| ReferenceData.FetchOwnersAsWritten | etl-pipeline/main.py:341-403 | the directory the program builds, doubled suffix included, holds exactly the active and archived ids |
| ReferenceData.FetchOwners | etl-pipeline/main.py:341-403 | the corrected directory holds exactly the active and archived ids, each with a non-empty name |
| ReferenceData.ActiveIdsAgree | etl-pipeline/main.py:355-362 | an active owner's entry is the same in the program's directory and the corrected one |
| ReferenceData.ArchivedOnlyDiffer | etl-pipeline/main.py:382-390 | an owner listed only as archived gets the program's archived entry in the program's directory and the corrected entry in the corrected one |
| ReferenceData.DirectoryAsWritten | etl-pipeline/main.py:341-403 | the program's directory and the corrected one have the same ids and differ exactly at owners listed only as archived whose first record has no name, where the program says "Unknown (Archived) (Archived)" |
| ReferenceData.OwnersNamed | etl-pipeline/main.py:355-389 | every owner in the directory has a non-empty name |
| DealFetch.RateLimitWait | etl-pipeline/main.py:616 | a rate-limit wait is the smaller of `10 * 2^k` seconds and 60: at most both, and equal to one of them |
| DealFetch.Keep | etl-pipeline/main.py:597-601 | without a target, the page unchanged; with one, a deal is kept exactly when it is in that pipeline |
| DealFetch.KeepIsFilter | etl-pipeline/main.py:597-601 | the filter distributes over concatenation and keeps or drops each single deal by its pipeline, so it keeps order and multiplicity |
| DealFetch.FetchAllDeals | etl-pipeline/main.py:572-631 | the listing makes a request exactly when the script of attempts is non-empty, and never more requests than the script has attempts |
| DealFetch.RunLogLength | etl-pipeline/main.py:583-631 | each step of the listing loop from a given attempt logs at least one request and at most one per remaining attempt |
| DealFetch.DealsAreServedPages | etl-pipeline/main.py:583-611 | a completed listing returns the filtered deals of every page served, in cursor order, and ends at the first page without a successor |
| DealFetch.RequestsFollowCursors | etl-pipeline/main.py:583-631 | each attempt asks for the cursor the previous one produced, a failure retrying the same cursor |
| DealFetch.RaisesAfterFiveFailures | etl-pipeline/main.py:583-631 | the listing raises only on a failure that is not a rate limit and ends five consecutive failed attempts |
| DealFetch.ErrorsRaise | etl-pipeline/main.py:587-631 | on any page, from any cursor and retry count, failures that are not rate limits and fill the remaining retries raise at the last one, after a 5-second wait for each earlier one |
| DealFetch.FiveErrorsRaise | etl-pipeline/main.py:619-631 | five failures in a row, none a rate limit, raise at the fifth attempt |
| DealFetch.RateLimitsNeverRaise | etl-pipeline/main.py:613-618 | rate limits alone never make the listing raise, however many there are |
| DealFetch.FifthRateLimitRetries | etl-pipeline/main.py:613-618 | five rate limits in a row wait 20, 40, 60, 60 and 60 seconds and then retry with the counter reset |
| DealFetch.WaitsAtMostAMinute | etl-pipeline/main.py:616-630 | no sleep between attempts exceeds a minute |
| Contacts.Hydrate | etl-pipeline/main.py:443-490 | an id's lookup makes one to three attempts with one wait between each two; a found last attempt gives the contact built from its answer, a failed one gives none |
| Contacts.HydrateStops | etl-pipeline/main.py:443-490 | every lookup attempt but the last failed with an error that is retried (a network error, or an unexpected one reading like a dropped connection); the last found the contact, failed otherwise, or was the third |
| Contacts.OtherFailureRetriedIffConnection | etl-pipeline/main.py:480-489 | an unexpected error on the first lookup is retried exactly when its message mentions SSL, EOF or a connection |
| Contacts.HydrateFrom | etl-pipeline/main.py:443-490 | from attempt k the lookup stops at the first attempt that finds the contact or fails with an error that is not retried, or at the third; the contact is the last answer's, and waits are only ever added |
| Contacts.HydrateAll | etl-pipeline/main.py:443-490 | there are at most as many contacts as ids |
| Contacts.HydrateAllAppend | etl-pipeline/main.py:442-489 | hydrating a concatenation of ids hydrates each part, and a single id contributes its found contact or nothing |
| Contacts.HydrateAllSnoc | etl-pipeline/main.py:442-489 | each id, in order, appends exactly the contact its lookup finds, if any |
| Contacts.FetchAssociatedContacts | etl-pipeline/main.py:406-517 | the listing makes between one and three attempts; when its last attempt lists ids the result is the contacts found for them, and when it failed the result is empty |
| Contacts.FetchFrom | etl-pipeline/main.py:411-517 | every listing attempt before the last failed with an error that is retried; the last listed, failed with an error that is not retried, or was the third; a listing yields the contacts of its ids and a failure none |
| Contacts.ListingBackoff | etl-pipeline/main.py:491-513 | the listing is retried only after an error that is retried, at most three attempts, waiting 2^j seconds after the j-th failed one |
| Contacts.ContactsFollowIds | etl-pipeline/main.py:443-490 | the contacts come in id order, at most one per associated id, each for one of the ids |
| Contacts.HydrationCarriesId | etl-pipeline/main.py:446-464 | a found contact carries the id it was looked up under |
| Contacts.FoundIffAnswered | etl-pipeline/main.py:443-490 | an id yields a contact exactly when one of its attempts is answered, and the contact is built from that answer |
| Contacts.ApiErrorTriedOnce | etl-pipeline/main.py:466-472 | an API exception on a lookup, permission or otherwise, ends it after one attempt with no wait |
| Contacts.LookupBackoff | etl-pipeline/main.py:473-490 | each id gets at most three attempts, waiting 2^j seconds after the j-th failed one |
| Contacts.NetworkFailuresExhaust | etl-pipeline/main.py:473-479 | an id failing on the network every time is tried three times, waiting 1 then 2 seconds, and yields nothing |
| Contacts.NoIdsNoContacts | etl-pipeline/main.py:411-438 | a deal without associations yields no contacts after one listing call |
| Contacts.ListingForbiddenNotRetried | etl-pipeline/main.py:501-505 | a permission error on the listing returns no contacts without a retry |
| Contacts.ContactsComeFromListing | etl-pipeline/main.py:411-517 | contacts only come from a successful listing; after a successful listing the result is the contacts found for its ids, in id order |
| DealTransform.PipelineLabel | etl-pipeline/main.py:1032-1033 | a deal whose pipeline id is non-empty and in the catalog gets that pipeline's label; otherwise the label is empty |
| DealTransform.StageLabel | etl-pipeline/main.py:1032-1038 | the label the deal's own pipeline gives the stage wins; the flat stage map is used only when that is empty; otherwise the label is empty |
| DealTransform.StageLabelResolution | etl-pipeline/main.py:1032-1038 | a stage listed with a non-empty label by the deal's own known pipeline gets that label; any other stage gets the flat map's label, or empty when the flat map lacks it |
| DealTransform.OwnerDetails | etl-pipeline/main.py:1041-1047 | an unknown or missing owner gives empty name and email; a known one gives the directory entry |
| DealTransform.OwnerNameShowsLookup | etl-pipeline/main.py:1041-1047 | with a directory of named owners, a deal's owner name is empty exactly when the id is missing or unknown |
| DealTransform.DaysSince | etl-pipeline/main.py:1069-1071 | a day count exists exactly when the date reads, and is the floor of the elapsed days |
| DealTransform.DaysUntil | etl-pipeline/main.py:1094-1096 | days to close exist exactly when the close date reads, and are the floor of the remaining days |
| DealTransform.DaysInStageFallback | etl-pipeline/main.py:1075-1092 | days in stage count from the stage entry date, falling back to the creation date, and are missing when neither reads |
| DealTransform.WeightedAmount | etl-pipeline/main.py:1106-1110 | the weighted amount exists exactly when amount and probability both do, and is their product |
| DealTransform.WeightedNeedsBoth | etl-pipeline/main.py:1106-1110 | the weighted amount is missing unless both properties read as numbers |
| DealTransform.PrimaryContact | etl-pipeline/main.py:1053 | there is a primary contact exactly when some contact was found, and it is the first |
| DealTransform.TransformDeal | etl-pipeline/main.py:1018-1210 | the row carries the deal's id, pipeline, stage and owner ids; its pipeline and stage labels are the catalog's resolution of those ids, its owner name and email the directory's; days since creation, in stage and to close are the day counts from the dates that read; won and lost are tests of the stage label, open is neither; the age status is the one of its days in stage and stage label; amount, probability, weighted amount, contact count and primary contact come from the deal and its contacts; the day is the snapshot's |
| DealTransform.TransformDeals | etl-pipeline/main.py:999-1224 | one row per deal, in order: row i is deal i's own row built with the contacts fetched for its id, stamped with the snapshot day |
| DealTransform.DealRowsResolve | etl-pipeline/main.py:1026-1113 | in every written row the own pipeline's non-empty stage label wins, won and lost are plain "won"/"lost" substring tests, days in stage count from a readable stage entry date, and the contact count is that of the deal's own contacts |
| DealTransform.StatusIsSubstring | etl-pipeline/main.py:1099-1101 | won means the lower-cased label mentions "won" (the "closed won" test adds nothing), and likewise for lost |
| DealTransform.WonAndLost | etl-pipeline/main.py:1100-1102 | a label naming both won and lost is both, and the deal is then not open |
| DealTransform.OpenOrClosed | etl-pipeline/main.py:1102 | every row is open or won-or-lost, never both |
| Meetings.TruncDiv | etl-pipeline/main.py:718 | `int(x / y)` rounds toward zero for either sign of `x` |
| Meetings.DurationMinutes | etl-pipeline/main.py:711-718 | a duration exists exactly when both start and end read |
| Meetings.DurationTowardZero | etl-pipeline/main.py:711-718 | the duration is the elapsed time in whole minutes, rounded toward zero whichever way the meeting runs |
| Meetings.DurationIsNotFloored | etl-pipeline/main.py:718 | a meeting ending 30 seconds before it starts lasts 0 minutes, not -1 |
| Meetings.MeetingOf | etl-pipeline/main.py:687-741 | a meeting keeps its id; owner and creator ids are the properties' (empty when missing) with name and email from the owner directory; start and end are the converted timestamps; the duration is the whole-minute span of the two, present exactly when both read |
| Meetings.FetchAllMeetings | etl-pipeline/main.py:636-762 | one meeting per item of the pages served before the first failure or last page, in order: meeting i is the mapping of item i |
| Meetings.FetchedDurationsTowardZero | etl-pipeline/main.py:709-718 | every fetched meeting's duration, when both ends read, is its span in whole minutes rounded toward zero in either direction |
| Meetings.JoinIds | etl-pipeline/main.py:843 | the joined ids are None exactly when there are no ids |
| Meetings.JoinIdsRoundTrip | etl-pipeline/main.py:843 | when no id holds a comma, the joined string splits back into the ids |
| Meetings.TransformMeetings | etl-pipeline/main.py:810-861 | one row per meeting, in order, with the snapshot day and its deal ids comma-joined, None exactly when it has none |
| Meetings.LikeFindsEveryDeal | etl-pipeline/deploy_ai_views.py:28 | the view's LIKE join links a meeting to every one of its deals |
| Meetings.LikeLinksPrefixIds | etl-pipeline/deploy_ai_views.py:28 | the LIKE join also links a meeting of deal 123 alone to deal 12 |
| SnapshotLoad.DeleteKeepsOtherDays | etl-pipeline/main.py:1241-1251 | the delete keeps only rows of other days, and only rows already in the table |
| SnapshotLoad.Load | etl-pipeline/main.py:1227-1268 | an empty batch loads nothing and leaves the table alone; a successful load reports the batch's size |
| SnapshotLoad.LoadReplacesDay | etl-pipeline/main.py:1241-1264 | after a load of a one-day batch, that day holds exactly the batch and every other day is unchanged |
| SnapshotLoad.LoadIdempotent | etl-pipeline/main.py:1241-1264 | loading the same one-day batch twice leaves the table as loading it once |
| SnapshotLoad.FailureAfterDeleteEmptiesDay | etl-pipeline/main.py:1266-1268 | a failure after the delete leaves the day empty; a failure before it changes nothing |
| SnapshotLoad.DeleteTwice | etl-pipeline/main.py:1241-1251 | deleting a day twice is deleting it once |
| SnapshotLoad.EmptyBatchIsNoOp | etl-pipeline/main.py:866-868 | an empty batch loads nothing, whatever the warehouse would do |
| Orchestrator.RunEtl | etl-pipeline/main.py:1316-1410 | a success loads every deal extracted and every meeting, and has no more open deals than deals; an invalid environment is an error that touches nothing |
| Orchestrator.ErrorMeansSomethingRaised | etl-pipeline/main.py:1316-1410 | the run reports an error exactly when the environment check fails, the deal listing raises, or a load with rows fails |
| Orchestrator.NoDealsLoadsNothing | etl-pipeline/main.py:1342-1349 | a listing that completes without deals reports no deals and leaves both tables alone |
| Orchestrator.SuccessReplacesDealDay | etl-pipeline/main.py:1352-1364 | after a success, the snapshot day holds as many rows as deals extracted and every other day is unchanged |
| Orchestrator.MeetingFailureAfterDeals | etl-pipeline/main.py:1352-1410 | a failing meetings load reports an error although the deals have already replaced their day |
| Orchestrator.WeightedPipelineBelowTotal | etl-pipeline/main.py:1371-1374 | with non-negative amounts and probabilities in [0, 1], the weighted pipeline is between zero and the total pipeline |
| RiskView.And3 | etl-pipeline/deploy_ai_views.py:56-119 | SQL AND: TRUE exactly when both are TRUE, FALSE exactly when either is FALSE |
| RiskView.Or3 | etl-pipeline/deploy_ai_views.py:56-119 | SQL OR: TRUE exactly when either is TRUE, FALSE exactly when both are FALSE |
| RiskView.Not3 | etl-pipeline/deploy_ai_views.py:91-111 | SQL NOT: NULL stays NULL, otherwise negation |
| RiskView.CaseWhen | etl-pipeline/deploy_ai_views.py:69-111 | a CASE is TRUE exactly when the first arm whose condition is TRUE has result TRUE |
| RiskView.DaysSinceDay | etl-pipeline/deploy_ai_views.py:52 | the day difference exists exactly when the timestamp does |
| RiskView.HasUpcomingMeeting | etl-pipeline/deploy_ai_views.py:20-30 | a deal has an upcoming meeting exactly when some meeting of the same day, linked by LIKE, starts now or later |
| RiskView.RiskInputOf | etl-pipeline/deploy_ai_views.py:13-54 | the view reads a written row's amount, owner name, stage label and days in stage, and has an upcoming meeting exactly when some same-day meeting row naming the deal starts now or later |
| RiskView.UpcomingMeetingShields | etl-pipeline/deploy_ai_views.py:20-90 | a same-day meeting row linked to the deal and starting now or later keeps the deal from being stalled or ghosted |
| RiskView.UpcomingMeetingOfPrefixId | etl-pipeline/deploy_ai_views.py:20-30 | an upcoming meeting of deal 123 also shields deal 12 |
| RiskView.Select | etl-pipeline/deploy_ai_views.py:125-138 | the count is at most four, and a deal is at risk exactly when the count is positive |
| RiskView.RecentActivityShields | etl-pipeline/deploy_ai_views.py:69-90 | an upcoming meeting or activity within the last week rules out stalled and ghosted |
| RiskView.StalledExactly | etl-pipeline/deploy_ai_views.py:69-76 | stalled means no upcoming meeting, no activity within 7 days, and over 30 days in stage (enterprise) or over 14 otherwise; a missing ARR or day count never stalls |
| RiskView.GhostedExactly | etl-pipeline/deploy_ai_views.py:77-90 | ghosted means no shield, and activity and contact older than 10 days (enterprise) or 5, a missing last contact counting as stale |
| RiskView.CountIsFlags | etl-pipeline/deploy_ai_views.py:125-138 | the count is the number of ownership, stalled, ghosted and Not-3PL flags that hold, and the deal is at risk exactly when one does |
| RiskView.HealthyExactly | etl-pipeline/deploy_ai_views.py:126-134 | the reason is "Healthy" exactly when none of the five reason flags holds |
| RiskView.ReasonPriority | etl-pipeline/deploy_ai_views.py:126-134 | each reason text is given exactly when its flag holds and no earlier flag does, in the order pending rebook, ownership, stalled and ghosted, stalled (enterprise or not), ghosted, Not 3PL |
| RiskView.AssessAsWritten | etl-pipeline/deploy_ai_views.py:52-138 | as written, a deal is at risk exactly when the written ownership, stalled, ghosted or written Not-3PL flag holds, and healthy exactly when it is not at risk and not pending rebook |
| RiskView.Assess | etl-pipeline/deploy_ai_views.py:52-138 | corrected, a deal is at risk exactly when the ownership, stalled, ghosted or Not-3PL flag holds, and healthy exactly when it is not at risk and not pending rebook |
| RiskView.PendingRebookDoesNotCount | etl-pipeline/deploy_ai_views.py:125-138 | pending rebook sets the reason but never makes a deal at risk by itself |
| RiskView.ChananFlaggedAsWritten | etl-pipeline/deploy_ai_views.py:56-63 | as written, every Chanan deal is an ownership risk, and so at risk |
| RiskView.ChananNotOwnershipRisk | etl-pipeline/deploy_ai_views.py:56-68 | corrected, a Chanan deal is only pending rebook, at risk only through the other flags |
| RiskView.OwnershipAgreesWithoutChanan | etl-pipeline/deploy_ai_views.py:56-63 | away from Chanan the written and corrected ownership flags agree |
| RiskView.NoIndustryAsWrittenUsesThreeWords | etl-pipeline/deploy_ai_views.py:91-111 | as written, without an industry only the three name words of the second arm decide the flag |
| RiskView.WarehouseFlaggedAsWritten | etl-pipeline/deploy_ai_views.py:92-109 | as written, "acme warehouse" without an industry is flagged Not 3PL; corrected, it is not |
| RiskView.NoIndustryUsesSevenWords | etl-pipeline/deploy_ai_views.py:92-97 | corrected, without an industry the first arm's seven name words decide the flag |
| RiskView.KnownIndustryAgrees | etl-pipeline/deploy_ai_views.py:98-109 | with an industry both readings agree: not 3PL exactly when the industry has none of the four words and the name none of the three |
| RiskView.LogisticsIndustryMatches | etl-pipeline/deploy_ai_views.py:98-103 | an industry mentioning "logistics" is a 3PL match whatever the name |
| RiskView.StalledDelayedExactly | etl-pipeline/deploy_ai_views.py:112-119 | stalled-delayed means a "delay" stage, over 30 days in it, and no next step |
| Targets.OrZero | etl-pipeline/daily_report_generator.py:271-275 | a missing figure counts as zero, a present one as itself |
| Targets.DaysRemaining | etl-pipeline/daily_report_generator.py:279-281 | days left in the quarter count today, and are zero after its end |
| Targets.CalculateTargetMetrics | etl-pipeline/daily_report_generator.py:268-308 | total and Q1 won ARR are the figures given, zero when missing; days elapsed count today from the quarter start, days remaining count today to the quarter end and are zero after it; on track exactly when ARR reaches the target; the remainder is non-negative, zero exactly when on track, and tops ARR up to the target; achievement is ARR as a percentage of the target; the required daily rate spreads the gap over the remaining days and the weekly rate is seven times it; the change is against yesterday |
| Targets.QuarterDays | etl-pipeline/daily_report_generator.py:279-281 | the quarter is 90 days, and within it the elapsed and remaining days add up to 91 |
| Targets.AfterQuarterNoRate | etl-pipeline/daily_report_generator.py:281-292 | after the quarter nothing remains to spread: the required rates are zero |
| Targets.ExceededTargetNegativeRate | etl-pipeline/daily_report_generator.py:284-292 | past the target, the required rate goes negative while the remainder stays zero |
| Targets.NoDataMeansWholeTarget | etl-pipeline/daily_report_generator.py:271-292 | with no data the whole target remains and the change is zero |
| Targets.HeuristicPassesDaysWithoutGain | etl-pipeline/daily_report_generator.py:295 | the computed but unused on-track expression holds on a day without gain while the returned flag says not on track |
| Targets.RoundHalfEven | etl-pipeline/daily_report_generator.py:624-626 | rounding to whole dollars lands within half a dollar, ties going to the even number |
| Targets.Grouped | etl-pipeline/daily_report_generator.py:624-626 | the thousands-grouped rendering is non-empty, starts with a digit, and holds only digits and commas |
| Targets.GroupedRoundTrip | etl-pipeline/daily_report_generator.py:624-626 | dropping the commas and reading the digits gives the number back |
| Targets.FormatChange | etl-pipeline/daily_report_generator.py:619-626 | "-" exactly when the change is missing or zero; otherwise "+$" for a gain and "-$" for a loss |
| Targets.FormatChangeRoundTrip | etl-pipeline/daily_report_generator.py:619-626 | after its sign and dollar sign, a non-zero change reads back as its magnitude rounded to whole dollars |
| Targets.SmallChangeShowsZero | etl-pipeline/daily_report_generator.py:621-626 | a change under half a dollar keeps its sign but shows "$0" |
| Targets.GroupedExample | etl-pipeline/daily_report_generator.py:624-626 | -1234567.5 renders as "-$1,234,568" |

## Left out

- HTTP details are left out: the SDK calls and their responses are pages and attempts, and the fallbacks inside a page call are not modelled.
- `fetch_all_deal_properties` (main.py:265-290) is left out: it only supplies the property names the deal listing asks for, and a deal is modelled as its property map.
- `fetch_associated_company` (main.py:520-569) is left out, and so are the company columns of a deal row. The risk view takes company name and industry as inputs. `RiskView.RiskInputOf` takes them as `DealColumns`, together with the other columns copied straight from the deal's properties: `hs_arr`, last modified, last contacted and next step.
- `fetch_meeting_associations` (main.py:765-807) is an oracle from a meeting id to its deal ids. The orchestrator's `contactsOf` likewise stands for the per-deal contact fetch, which `Contacts.FetchAssociatedContacts` models on its own.
- Logging, the execution time and the ISO snapshot timestamp in the success report are left out.
- The JSON of all properties stored on a row is left out.
- `ensure_table_exists` and the table schemas are left out; a missing table is an empty one.
- The environment check is a boolean.
- `float()` is a reader oracle, and money is exact. Float rounding, `inf` and `nan` are not modelled.
- `str.lower()` and `LOWER` are ASCII-only here; no Unicode case mapping.
- `str.strip()`, `str.isdigit()`, the regular expression `\d` and `int()` are ASCII-only here. Python's `strip()` also removes the other Unicode whitespace (\x1c-\x1f, \x85, \xa0 and more), and the digit tests and `int()` also accept non-ASCII decimal digits; the model treats such characters as ordinary text.
- The `if snapshot_date` guards in the loads are left out: every batch row carries a day.
- The LIKE pattern treats deal ids as plain text. An id containing `%` or `_` would act as a wildcard, which the model does not show.
- Properties whose value is JSON null are modelled as absent. `props.get(key, '')` would then render "None" in a contact name; the model renders "".
- A page that reports a successor without an `after` cursor is not modelled. The owner, deal and meeting listings would then request the first page again; the model treats such a page as having no successor.
- Timestamps.Convert: instants are microseconds since the epoch rather than the source's `datetime` objects; all-digit values are milliseconds. The source divides the milliseconds by 1000 in floating point before `fromtimestamp` rounds to microseconds; the model takes the exact `ms * 1000`, which is what the source yields only below about 2^33 seconds (see the next line).
- Timestamps.EpochMillisRoundTrip: the exact instant is what the source's floating-point path yields only below about 2^33 seconds (around the year 2242). Later millisecond values can come out a fraction of a millisecond off in the source, which the model does not show. IEEE-754 doubles are not modelled.
- ReferenceData.FetchOwners: the directory the rest of the model uses (deal owner names, meeting owners, the orchestrator) gives a nameless archived owner "Unknown (Archived)", the corrected name of the Findings row, not the program's "Unknown (Archived) (Archived)". `ReferenceData.FetchOwnersAsWritten` is the program's directory, and `ReferenceData.DirectoryAsWritten` states that the two differ at exactly those owners and nowhere else.
- DealFetch.RaisesAfterFiveFailures: a finite script of attempts stands for the API. A script that runs out before the listing ends gives `Unfinished`, which the source cannot produce; the orchestrator reports it as `Incomplete`.
- Orchestrator.RunEtl: the sums of the success report are over exact reals, and `Incomplete` covers the exhausted script.
- The view's `latest_deals` filter is left out: open deals, the target pipeline and the latest snapshot day. The view is modelled per row, with `CURRENT_DATE()` and `CURRENT_TIMESTAMP()` as parameters.
- The report's other queries, rendering and documents are left out. So are the other views, the scheduler, the analysis scripts and the language-model function.
- Won and lost are not exclusive in the source (`DealTransform.WonAndLost`), though a reader might expect them to be; the model keeps the source's rule.
- A rate limit never raises: the retry counter resets after the back-off (`DealFetch.RateLimitsNeverRaise`). The model keeps the source's loop rather than a five-attempt bound on 429s.

## Findings

| source | as written | input that shows it | evidently intended | confidence | as-written member | corrected member |
|---|---|---|---|---|---|---|
| etl-pipeline/deploy_ai_views.py:56-63 | the ownership arm tests `LIKE '%hanan%'`, which every "Chanan" contains | a deal owned by "Chanan Cohen" | the comment names Kurt, Hanan and deactivated owners, and Chanan's deals have their own pending-rebook flag | not executed | RiskView.ChananFlaggedAsWritten | RiskView.ChananNotOwnershipRisk |
| etl-pipeline/deploy_ai_views.py:92-109 | a company without an industry that fails the first arm falls through to the second, which reads the industry as '' and checks only three name words | company "acme warehouse" with a NULL industry | the first arm, with its seven name words, decides companies without an industry | not executed | RiskView.WarehouseFlaggedAsWritten | RiskView.NoIndustryUsesSevenWords |
| etl-pipeline/main.py:385-387 | the nameless fallback is "Unknown (Archived)" and " (Archived)" is appended again | an archived owner with no first or last name | "Unknown (Archived)" | not executed | ReferenceData.NamelessArchivedTwice | ReferenceData.ArchivedEntry |

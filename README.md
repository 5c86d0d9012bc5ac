# CodeContext ingestion core in Dafny

CodeContext is a Next.js application that indexes a GitHub repository for
question answering and summarises its recent commits. This project models the
deterministic core of that pipeline and proves properties of it:

- **Rate limiter** (`rate_limiter.dfy`, module `RateLimit`): the token buckets of
  `src/lib/rate-limiter.ts` as classes whose methods update `tokens` and
  `lastRefill` in place, the `RateLimiter` map of buckets and the lazily
  created singleton. The clock is a parameter; a `setTimeout` wait moves the
  clock by the computed time plus an arbitrary lateness.
- **Retry** (`retry.dfy`, module `Retry`): the attempt loop of `withRetry`, which
  `src/lib/github-loader.ts` and `src/lib/github.ts` each define with a
  different test for throttling errors, including the `retry in Ns` delay
  parser and its 60 s default.
- **Batch and single-file summaries** (`gemini.dfy`, module `Gemini`): the batch
  prompt, the parser that cuts the model's reply into one summary per file, its
  fallbacks, and the truncation and error handling of `summariseCode`.
- **Repository indexing** (`github_loader.dfy`, module `GithubLoader`):
  `parseGithubUrl` with its regular expression, the rules `loadGithubRepo`
  applies around its network calls, `shouldProcessFile`, the batch loop of
  `generateEmbeddings` and the counting of `indexGithubRepo`.
- **Commit polling** (`github.dfy`, module `Commits`): `getCommitHashes` (split of
  the URL, newest-first sort, the newest ten), `filterUnprocessedCommits`,
  the fallbacks of `summariseCommit` and the loop of `pollCommits`.
- **Upload name** (`supabase.dfy`, module `Upload`): the `uniqueFileName` built in
  `uploadFile`.
- Shared helpers: `common.dfy` (`Option`, `Result`, the `Reply` of a model
  call) and `strings.dfy` (the JavaScript string operations the core uses:
  `indexOf`, `includes`, `endsWith`, `slice`, `trim`, `toLowerCase`, and
  decimal rendering of integers).

Services the code cannot see are function parameters: the GitHub API, the
repository loader, the diff download, the Gemini model, the embedding model
and the database. A call that can throw returns a `Result` whose `Err`
carries the error message. A call that is retried takes the attempt number
as an extra argument, so that successive attempts may answer differently. A
method that sleeps returns the list of its waits in milliseconds instead.

The two URL readers of the core disagree on some addresses. The commit
poller accepts only what ends in `/<owner>/<repo>`. So an address with a
trailing `/` is indexed but makes polling throw
(`Commits.TrailingSlashOnlyIndexed`). An address ending in `.git` is polled
under the repository name `<repo>.git` (`Commits.GitSuffixKeptByPoller`).

Behaviour of the code worth noting, which the model follows:

- the files of a repository are not filtered by size;
- test files are processed like any other source file;
- once `withRetry` gives up it returns `null`; it never throws;
- documents are embedded in batches of five, with no cap on the number of
  files embedded;
- commits are summarised one after the other, with a 6 s wait between two
  commits;
- the vector update is one raw query per record, with no row-by-row fallback.

## Model

| member | source | states |
|---|---|---|
| RateLimit.RequestsPerMinute | src/lib/rate-limiter.ts:16-25 | a rate exists exactly for "generation" and "embedding", and it is positive |
| RateLimit.Refilled | src/lib/rate-limiter.ts:40-46 | the refilled count never exceeds the maximum; it is either the maximum or the old count plus elapsed time times rate; it never drops when time moves forward |
| RateLimit.WaitMs | src/lib/rate-limiter.ts:57-58 | the wait is the least whole number of milliseconds (at least 1) whose refill covers the missing tokens |
| RateLimit.WaitRefillsEnough | src/lib/rate-limiter.ts:56-63 | waiting at least the computed time refills the bucket to at least the requested count, when that count fits in the bucket |
| RateLimit.TokenBucket.constructor | src/lib/rate-limiter.ts:33-38 | a new bucket is full, refills requestsPerMinute/60000 tokens per millisecond and was last refilled now |
| RateLimit.TokenBucket.Refill | src/lib/rate-limiter.ts:40-46 | the tokens become the refilled count for the elapsed time and the refill time becomes now; tokens never drop when the clock moves forward |
| RateLimit.TokenBucket.Acquire | src/lib/rate-limiter.ts:48-64 | with enough tokens after the refill, count is taken at once and nothing is waited; otherwise the computed wait is slept, the bucket is refilled over the wait plus the timer's lateness, and count is taken; the bucket never goes negative when count fits in it |
| RateLimit.TokenBucket.GetAvailableTokens | src/lib/rate-limiter.ts:66-69 | after the refill, the result is the floor of the tokens and at most the bucket size |
| RateLimit.TokenBucket.GetWaitTimeMs | src/lib/rate-limiter.ts:71-76 | the result is 0 exactly when the refilled bucket holds count; otherwise it is the least sufficient wait |
| RateLimit.MinDelayMs | src/lib/rate-limiter.ts:134-138 | defined exactly for the two model types; the result is the least integer at least 1.1 times the even spacing of one minute's requests |
| RateLimit.MinDelayValues | src/lib/rate-limiter.ts:134-138 | the two delays are 4400 ms for generation and 44 ms for embedding |
| RateLimit.RateLimiter.constructor | src/lib/rate-limiter.ts:83-88 | there is one fresh, full, distinct bucket for each entry of the rate table, sized by its rate |
| RateLimit.RateLimiter.Acquire | src/lib/rate-limiter.ts:101-113 | an unknown type is an error with the source's message; otherwise only that type's bucket changes, as its wait query and then its acquire require |
| RateLimit.RateLimiter.GetOptimalBatchSize | src/lib/rate-limiter.ts:118-129 | the result is 1 for every type but embedding; for embedding it is the smaller of 25 and the floor of the refilled tokens, never negative for a bucket in use; only the embedding bucket changes |
| RateLimit.RateLimiter.GetAvailableCapacity | src/lib/rate-limiter.ts:143-146 | the result is the floor of the type's refilled tokens, or 0 for an unknown type; no other bucket changes |
| RateLimit.LimiterSingleton.GetInstance | src/lib/rate-limiter.ts:90-95 | the first call creates a valid limiter and stores it; every later call returns the stored one |
| RateLimit.GetInstanceTwice | src/lib/rate-limiter.ts:90-95 | two calls return the same limiter |
| Retry.FirstCapture | src/lib/github-loader.ts:212 | the capture found is the leftmost one, as `match` returns it; when there is none, no position matches |
| Retry.ParseFloat | src/lib/github-loader.ts:213-214 | the number read is never negative, and a string of digits reads as its decimal value |
| Retry.ParseFloatFraction | src/lib/github-loader.ts:213-214 | digits, a dot and digits, followed by a non-digit, read as the decimal number they write |
| Retry.ParseFloatWhole | src/lib/github-loader.ts:213-214 | digits followed by neither a digit nor a dot read as their integer value |
| Retry.SuggestedDelayUsed | src/lib/github-loader.ts:212-215 | a message whose first `retry in ` is followed by `N.Fs` or `Ns`, anywhere in the message, waits N.F*1000 ms |
| Retry.SuggestionCaptured | src/lib/github-loader.ts:212 | the run of digits and dots after the first `retry in `, closed by `s`, is what `match` captures |
| Retry.NoSuggestionWaitsDefault | src/lib/github-loader.ts:212-215 | a message without `retry in ` waits the 60000 ms default |
| Retry.WithRetry | src/lib/github-loader.ts:198-233 | the loop's result, number of calls and waits are those of the specification `Run` |
| Retry.RunBounds | src/lib/github-loader.ts:203-232 | no call is made when maxRetries < 1; otherwise there are between 1 and maxRetries calls with one wait fewer than calls, and a value is returned only when the last call returned it |
| Retry.StopsAtFirstNonThrottled | src/lib/github-loader.ts:203-229 | after k throttled calls, a success or another error at call k ends the loop with that value (or null), k+1 calls and the k requested waits |
| Retry.AllThrottledGivesNull | src/lib/github-loader.ts:209-220 | when every call is throttled, the result is null after exactly maxRetries calls, with a wait between consecutive calls and none after the last |
| Retry.NeverThrowingCalledOnce | src/lib/github-loader.ts:203-205 | an operation that does not throw is called once and its value is returned |
| Retry.CommitClassifierWider | src/lib/github.ts:56-59 | every error the indexer's copy treats as throttling, the commit copy treats so too |
| Retry.TooManyRequestsNotLoaderThrottle | src/lib/github-loader.ts:207-208 | "Too Many Requests" is not throttling for the indexer's copy |
| Retry.TooManyRequestsCommitThrottle | src/lib/github.ts:56-59 | "Too Many Requests" is throttling for the commit copy |
| Retry.TooManyRequestsDefaultDelay | src/lib/github.ts:64-67 | "Too Many Requests" carries no suggestion, so the wait is the 60000 ms default |
| Retry.TooManyRequestsStopsLoader | src/lib/github-loader.ts:206-229 | that error ends the indexer's copy after one call with null |
| Retry.TooManyRequestsRetriesCommits | src/lib/github.ts:52-77 | the same error makes the commit copy wait 60 s and return the value of the second call |
| Gemini.DisplayName | src/lib/gemini.ts:128 | the display name is never empty and is the file name whenever that is not empty |
| Gemini.JoinBlankLinesSnoc | src/lib/gemini.ts:95 | joining one more part appends it after a blank line |
| Gemini.FilePromptsSnoc | src/lib/gemini.ts:90-95 | a file added at the end adds its prompt, numbered after the others, after a blank line and leaves the earlier prompts unchanged |
| Gemini.SectionEnd | src/lib/gemini.ts:123-138 | section i ends at the first `[FILE i+1]` when there is a next file and that marker occurs; otherwise it ends at the end of the reply |
| Gemini.Entry | src/lib/gemini.ts:121-144 | a file's summary is never empty, and it is the fallback when its marker is missing |
| Gemini.ParsedSummaries | src/lib/gemini.ts:119-145 | there is one summary per file, in input order |
| Gemini.FindSectionEnd | src/lib/gemini.ts:132-138 | the end-of-section search of the parse loop stops where the specified section of file i ends |
| Gemini.ReadEntry | src/lib/gemini.ts:122-144 | one pass of the parse loop yields the summary of file i |
| Gemini.ParseSummaries | src/lib/gemini.ts:119-148 | the parse loop yields exactly the specified summaries |
| Gemini.FailedSummaries | src/lib/gemini.ts:150-154 | when the model call throws, each file gets "Summary generation failed for" plus its name |
| Gemini.BatchSummariseCode | src/lib/gemini.ts:81-155 | there is one summary per file; no request is made for an empty list and one request otherwise; the summaries are the parsed reply, or the failure text for every file when the call throws |
| Gemini.EmptySectionFallback | src/lib/gemini.ts:133-144 | a file whose next marker comes before the end of its own marker gets the fallback |
| Gemini.ParseFormatRoundTrip | src/lib/gemini.ts:100-108 | a reply in exactly the requested format, with clean summaries, parses back to those summaries |
| Gemini.EntryOfFormat | src/lib/gemini.ts:121-144 | entry i of a reply in the requested format is the i-th summary |
| Gemini.MarkerFound | src/lib/gemini.ts:125 | in a reply in the requested format, the first `[FILE i]` starts section i |
| Gemini.RequestOf | src/lib/gemini.ts:53-58 | the request names the document's source and carries a prefix of its content of at most 10000 characters, which is the whole content when that is shorter |
| Gemini.SummariseCode | src/lib/gemini.ts:50-65 | the summary is the model's reply to that request, or "" when the call throws |
| Gemini.SummaryIgnoresTail | src/lib/gemini.ts:53-60 | two documents that agree on their source and first 10000 characters send the same request, and so get the same summary from a model that answers a request the same way each time |
| GithubLoader.StripSuffix | src/lib/github-loader.ts:10-11 | one trailing occurrence of the suffix is removed, and nothing else changes |
| GithubLoader.RepoMatchAt | src/lib/github-loader.ts:13 | both groups of a match are non-empty and free of `/` |
| GithubLoader.RepoMatchOccurs | src/lib/github-loader.ts:13 | what a match found is written at its position as `github.com/<owner>/<repo>` |
| GithubLoader.FirstRepoMatchNone | src/lib/github-loader.ts:13 | nothing is found exactly when no position holds a match |
| GithubLoader.FirstRepoMatchFound | src/lib/github-loader.ts:13 | what is found is the match at some position |
| GithubLoader.FirstRepoMatchAt | src/lib/github-loader.ts:13 | the leftmost position holding a match is the one reported |
| GithubLoader.ParseGithubUrl | src/lib/github-loader.ts:7-23 | an accepted owner and repo are non-empty and free of `/`; a rejection carries "Invalid GitHub URL format: " and the URL |
| GithubLoader.ParseGithubUrlSpec | src/lib/github-loader.ts:7-23 | a URL is rejected exactly when its cleaned form holds no match; what is accepted is written in the cleaned URL |
| GithubLoader.CanonicalClean | src/lib/github-loader.ts:8-11 | cleaning a repository address removes exactly an optional trailing `/` and `.git` |
| GithubLoader.CanonicalMatch | src/lib/github-loader.ts:13 | the first match in a repository address is its owner and name |
| GithubLoader.ParseCanonicalUrl | src/lib/github-loader.ts:7-23 | a repository address, with or without `/`, `.git` or both, parses to its owner and name |
| GithubLoader.TokenOf | src/lib/github-loader.ts:73 | the token is missing exactly when neither the argument nor the environment gives one |
| GithubLoader.BranchOf | src/lib/github-loader.ts:89 | the branch is the default branch, or "main" when there is none, and never empty |
| GithubLoader.LoadError | src/lib/github-loader.ts:171-192 | a loader error containing 404, 401 or 403 (looked for in that order) becomes the matching message; any other error is rethrown unchanged |
| GithubLoader.LoadGithubRepoRules | src/lib/github-loader.ts:64-194 | a bad URL or a failed repository check stops before loading; a result means the repository lookup succeeded, a private repository had a token, and the loader was asked for the default branch or "main" |
| GithubLoader.PrivateRepoNeedsToken | src/lib/github-loader.ts:82-87 | a private repository without any token is refused with the source's message |
| GithubLoader.SkippedFromSpec | src/lib/github-loader.ts:238-263 | a path is skipped exactly when one of the nineteen patterns matches it |
| GithubLoader.ShouldProcessIgnoresCase | src/lib/github-loader.ts:235-236 | the verdict does not depend on letter case |
| GithubLoader.MissingSourceProcessed | src/lib/github-loader.ts:236-268 | a document without a source path is processed |
| GithubLoader.FileNameOf | src/lib/github-loader.ts:304 | the file name is never empty |
| GithubLoader.ProcessSpec | src/lib/github-loader.ts:302-342 | since the summary call never throws, a document is kept exactly when its summary is not blank and its embedding is obtained; the entry holds that summary, embedding, content and file name |
| GithubLoader.ProcessDocument | src/lib/github-loader.ts:302-342 | one callback yields the specified entry or nothing |
| GithubLoader.FilterDocs | src/lib/github-loader.ts:272 | exactly the documents that pass `shouldProcessFile` are kept |
| GithubLoader.FilterDocsSingle | src/lib/github-loader.ts:272 | one document is kept exactly when it passes `shouldProcessFile` |
| GithubLoader.FilterDocsAppend | src/lib/github-loader.ts:272 | filtering distributes over concatenation, so the kept documents keep their input order and repetitions |
| GithubLoader.KeptAppend | src/lib/github-loader.ts:344-346 | dropping the nulls distributes over concatenation, so the order of batches is kept |
| GithubLoader.KeptSpec | src/lib/github-loader.ts:345 | the kept entries are exactly the non-null results, and there are no more of them |
| GithubLoader.Outcomes | src/lib/github-loader.ts:302-344 | there is one outcome per document, in order |
| GithubLoader.RunBatch | src/lib/github-loader.ts:302-344 | a batch yields the outcomes of its documents in order |
| GithubLoader.EmbeddingsSpec | src/lib/github-loader.ts:271-365 | each returned entry has a non-blank summary and comes from a document that passed the filter; there are no more entries than such documents |
| GithubLoader.GenerateEmbeddings | src/lib/github-loader.ts:271-365 | the result is the entries of the filtered documents in order, with a 4000 ms wait after every batch of five but the last |
| GithubLoader.EmbedInBatches | src/lib/github-loader.ts:282-364 | the batch loop yields the non-null outcomes in order, with ceil(n/5)-1 waits of 4000 ms |
| GithubLoader.FindByFileName | src/lib/github-loader.ts:428-430 | the entry found is the first one with the file name; none is found only when no entry has it |
| GithubLoader.CountUpdated | src/lib/github-loader.ts:427-455 | no more records are counted as updated than there are records |
| GithubLoader.IndexOutcomeAccounts | src/lib/github-loader.ts:367-465 | every fetched record is counted once, as indexed or as failed; the counts are zero when nothing was loaded or embedded; a loading error is passed on |
| GithubLoader.UpdateVectors | src/lib/github-loader.ts:424-455 | the loop counts the records whose update succeeds as indexed and all others as failed |
| GithubLoader.IndexGithubRepo | src/lib/github-loader.ts:367-465 | the result is what the specification gives for the loaded repository |
| GithubLoader.IndexLoaded | src/lib/github-loader.ts:378-409 | after loading, the counts are zero for no documents or no embeddings, and otherwise come from the stored records |
| GithubLoader.IndexStoredRecords | src/lib/github-loader.ts:401-460 | a storage error is passed on; otherwise the counts are those of the update loop |
| Commits.JoinSplit | src/lib/github.ts:21 | the pieces of a split contain no `/` and join back to the string |
| Commits.SplitJoin | src/lib/github.ts:21 | pieces without `/` split back out of their join |
| Commits.SplitAppend | src/lib/github.ts:21 | splitting at a `/` splits the two sides apart |
| Commits.OwnerAndRepoSpec | src/lib/github.ts:21-24 | the accepted owner and repo are non-empty, free of `/`, and are the last two pieces of the URL |
| Commits.TrailingSlashRejected | src/lib/github.ts:21-24 | a URL ending in `/` is rejected with "Invalid github url" |
| Commits.OwnerAndRepoOfTail | src/lib/github.ts:21-24 | any URL ending in `/<owner>/<repo>` gives back that owner and repo |
| Commits.TrailingSlashOnlyIndexed | src/lib/github.ts:21-24 | a repository address with a trailing `/` is accepted by the indexer's parser and rejected by the poller's |
| Commits.GitSuffixKeptByPoller | src/lib/github.ts:21-24 | with `.git` the indexer's parser drops the suffix and the poller's keeps it in the repository name |
| Commits.Insert | src/lib/github.ts:30-34 | insertion adds exactly one commit and keeps the rest |
| Commits.InsertNewestFirst | src/lib/github.ts:30-34 | insertion into a list sorted newest first keeps it sorted |
| Commits.SortNewestFirst | src/lib/github.ts:30-34 | the sort is a permutation of the listed commits |
| Commits.SortNewestFirstSorted | src/lib/github.ts:30-34 | the sorted list is newest first |
| Commits.NewestSpec | src/lib/github.ts:30-36 | at most ten commits are kept, newest first, all taken from the list |
| Commits.NewestLeftOutOlder | src/lib/github.ts:30-36 | no commit left out is newer than a commit kept |
| Commits.Infos | src/lib/github.ts:36-42 | there is one record per commit, in order |
| Commits.GetCommitHashesSpec | src/lib/github.ts:18-43 | an invalid URL is an error before the API is asked; otherwise there are min(10, n) records of the newest commits, in order, with the hash copied, each present message, author name, avatar and date copied, and each missing one as "" |
| Commits.FilterUnprocessed | src/lib/github.ts:238-243 | the filter never returns more commits than it is given |
| Commits.FilterMembers | src/lib/github.ts:238-243 | a commit passes exactly when its hash is not stored |
| Commits.FilterAppend | src/lib/github.ts:238-243 | filtering distributes over concatenation, so it keeps the order |
| Commits.FilterIdempotent | src/lib/github.ts:238-243 | filtering twice against the same hashes changes nothing |
| Commits.FilterAfterStoring | src/lib/github.ts:230-246 | once the hashes of the commits it returned are stored, the filter returns nothing |
| Commits.FilterAllStored | src/lib/github.ts:238-243 | nothing passes when every hash is stored |
| Commits.SummariseCommit | src/lib/github.ts:180-213 | a summary that is returned is never empty |
| Commits.SummariseCommitCases | src/lib/github.ts:190-211 | a failed diff request reads "Failed to fetch diff: " plus its message; a missing or non-string diff gives the "No changes" text; a blank summary gives the "empty result" text; otherwise the result is the trimmed summary, which has nothing left to trim |
| Commits.Records | src/lib/github.ts:116-151 | there is one record per unprocessed commit |
| Commits.RecordsSpec | src/lib/github.ts:129-151 | each record carries the project and the commit's fields; its summary is never empty; it is the retried call's value when that call returned one, and the fixed failure text when it gave up |
| Commits.SummaryFor | src/lib/github.ts:123-151 | a commit's summary is the retried summary, or the fixed text when that is null |
| Commits.SummariseAll | src/lib/github.ts:116-164 | the loop yields the specified records in order, with a 6000 ms wait between two commits and none after the last |
| Commits.PollCommits | src/lib/github.ts:87-178 | a missing URL, an invalid URL or an API error is passed on with nothing summarised; nothing is created when every commit is stored; otherwise the created count is that of the specified records |
| Upload.Sanitize | src/lib/supabase.ts:14 | the sanitised name has the length of the original |
| Upload.SanitizeAt | src/lib/supabase.ts:14 | an allowed code unit stays in place and any other becomes `_` |
| Upload.SanitizeSafe | src/lib/supabase.ts:14 | every code unit of the result is an ASCII letter, a digit, `.` or `_` |
| Upload.SanitizeFixed | src/lib/supabase.ts:14 | a name is left unchanged exactly when it holds only those code units |
| Upload.SanitizeIdempotent | src/lib/supabase.ts:14 | sanitising twice is the same as sanitising once |
| Upload.DecimalUnits | src/lib/supabase.ts:14 | the clock is rendered as ASCII digits, one unit per digit |
| Upload.DecimalUnitsInjective | src/lib/supabase.ts:14 | distinct clock readings render differently |
| Upload.UniqueFileNameSplits | src/lib/supabase.ts:14 | the stored name splits at its first `-` into the clock's digits and the sanitised name |
| Upload.UniqueFileNamesDiffer | src/lib/supabase.ts:14 | two uploads at different clock readings never share a name |
| Strings.IndexOfSpec | src/lib/gemini.ts:125 | `indexOf` is -1 exactly when the pattern does not occur; otherwise it is the first occurrence |
| Strings.TrimSpec | src/lib/gemini.ts:140-142 | `trim` is empty exactly for all-whitespace text; otherwise it is the text between the leading and trailing whitespace, with no whitespace at either end |
| Strings.TrimIdempotent | src/lib/github.ts:200-205 | trimming twice is the same as trimming once |
| Strings.LowerIdempotent | src/lib/github-loader.ts:236 | lower-casing twice is the same as lower-casing once |
| Strings.NatToStringRoundTrip | src/lib/gemini.ts:122 | the decimal rendering of a number reads back as that number |
| Strings.NatToStringInjective | src/lib/gemini.ts:122 | distinct numbers render differently, so distinct file numbers give distinct markers |

## Left out

- Network, database, AI and environment calls are function parameters. Their internals are not modelled: GitHub's REST API, `verifyGithubRepo`'s request and status handling, LangChain's `GithubRepoLoader`, axios, Gemini, Prisma and the raw vector update.
- The `ignoreFiles` globs given to `GithubRepoLoader` are not modelled; applying them is the loader's own job.
- Prompt wording is not modelled character by character. `BatchRequest` keeps the file count and the joined file prompts (`FilePrompt` is exact). `CodeRequest` keeps the file's path and the truncated code; the five parts of the single-file prompt are in `CodePromptParts`. A document without `metadata.source` has the empty path in the model, so `CodePromptParts` writes "" where the template literal writes `undefined`.
- Logging (`console.*`) and the estimated-time messages are left out.
- Concurrency is not modelled. The callbacks of one `Promise.all` batch run one after the other in the model, and the result keeps their order just as `Promise.all` does. Interleavings of their retries and of concurrent callers of the rate limiter are not modelled.
- Time values are integers and token counts are exact reals. JavaScript numbers are doubles, so their rounding is not modelled.
- Waits are not slept. `WithRetry`, `GenerateEmbeddings`, `SummariseAll` and `PollCommits` return the list of their waits. The waits inside each `withRetry` are in its trace, not in the waits of `pollCommits`.
- `Date.now()` and timer lateness are parameters.
- `setTimeout` turns a delay below 1 ms or above 2^31-1 ms into 1 ms. `Retry.RetryDelayMs` records 1 ms for a NaN suggestion (a capture of dots only), but other out-of-range suggestions are recorded as asked, not clamped.
- Gemini.SummaryIgnoresTail: the model call is a function of the request, so the same request gets the same reply. The real call need not be deterministic; what the code itself guarantees is only that the two requests are equal, which is the lemma's first conclusion.
- Throws of non-`Error` values are not modelled: an error is a message. A thrown value without a message behaves like an empty message, which neither throttling classifier accepts.
- `new Date(date).getTime()` is the field `ApiCommit.time`; invalid dates (NaN) are left out, and so is the TypeError the sort comparator (src/lib/github.ts:30-33) throws when a commit has no `commit.author`.
- The project lookup (`db.project.findUnique`, src/lib/github.ts:216) and the stored-hashes query (`db.commit.findMany`, src/lib/github.ts:234) are oracles that always answer; a database error there, which `pollCommits` would pass on, is not modelled.
- Commits.SortNewestFirst: the sort is built stable, as `Array.prototype.sort` is, but only that it is a permutation that is newest first is proved, not its stability.
- `aiSummariseCommit` is assumed not to throw axios errors, so its errors are rethrown unchanged. An axios error from the diff request is wrapped in "Failed to fetch diff: ".
- The condition `commitsToCreate.length === 0` in `pollCommits` (src/lib/github.ts:166-169) cannot succeed there. The loop pushes one record per unprocessed commit, and an empty list has already returned. `Commits.PollCommits` therefore has no such branch.
- `createMany` is an oracle. The count it reports is what `create` returns; nothing relates it to the number of records.
- Only ASCII letters are lower-cased (`Strings.LowerChar`). The paths the skip patterns test are compared after that mapping.
- Strings are sequences of characters. Only `Upload` works on UTF-16 code units, because its replacement pattern has no `u` flag.
- `generateEmbedding` and `aiSummariseCommit` are oracles. So are the Supabase upload and the public URL of `uploadFile` (src/lib/supabase.ts); of those only the file name is modelled.

# GitHub PR reminders — a verified model of the decision core

The action looks for open pull requests in an organisation that are waiting on
reviewers. It groups them by reviewer and posts one reminder message to Slack. This
project models in Dafny the parts of it that make decisions:

- **Selection** (`src/github.ts`, module `Github` in `github.dfy`).
  - `filterPR` decides, for one pull request, which exclusion reasons hold, in the
    fixed order `draft`, `label:suppress-pr-reminder`, `created_before_cutoff`,
    `no_allowlisted_reviewers`. It also narrows the reviewers to the allowlist.
  - `filterPRs` keeps the included pull requests, normalised.
  - `parseRepoFromUrl` takes the first `repos/<owner>/<repo>` out of a repository URL.
  - The per-item loop of `fetchRecentPRs` is a method with its loop. It works on the
    first 100 search hits, appends the selected pull requests and tallies the skip
    reasons. The search response and each detail request are given as input: a
    `SearchItem` carries the hit and the outcome of its detail request.
- **Rendering** (`src/slack.ts`, module `Slack` in `slack.dfy`).
  - `groupByReviewer` is a method with the source's nested loops over a map-valued
    variable.
  - `formatMessage` is a method that builds the message with `+=` over the sorted
    reviewers and their pull requests.
  - Both are proved against specification functions (`GroupOf`, `Render`), and the
    properties are proved about those functions.
- **Configuration** (`src/config.ts`, module `Config` in `config.dfy`).
  - `readUsersMap` checks the parsed users map. Reading and parsing the file are given
    as a `ReadOutcome`. The model keeps the order of the checks (read, parse, shape)
    and the early-exit loop over the entries.
  - `loadConfig` chooses the default path when the `users_map_path` input is empty.

Supporting modules:

- `Wrappers` holds `Option` and `Result`. A `Failure` carries the message of the
  error the source throws.
- `Sequences` holds generic facts about sequences.
- `Text` holds the decimal rendering of PR numbers and the ascending string order
  that `sort()` gives the reviewer keys.

Timestamps are integers: `createdAt` and the cutoff are plain numbers. The cutoff is
inclusive. Reviewers and labels are reduced to their `login` and `name` strings.

The model follows the code where it differs from the documented behaviour of the action:

- `parseRepoFromUrl` is called outside the `try` of the loop (`src/github.ts:116`).
  So an unparsable repository URL ends the whole discovery run with that error. It is
  not skipped per item. `FetchRecentPRs` returns `Failure` in that case, and
  `CollectAborts` characterises exactly when this happens.
- Only a failed detail request is skipped per item.

## Model

| member | source | states |
|---|---|---|
| Github.AllowedReviewers | src/github.ts:67 | The narrowed list is an order-preserving subsequence of the requested reviewers. All of its logins are allowlisted. Each allowlisted login keeps its number of occurrences, and every other login is gone. |
| Github.AllowedReviewersUnchanged | src/github.ts:67 | A reviewer list that is entirely allowlisted is left unchanged. |
| Github.PushIf | src/github.ts:55-70 | After a conditional `push`, a reason is present iff it was present before, or the condition held and it is the pushed reason. |
| Github.PushIfKeepsOrder | src/github.ts:53-70 | Pushing the k-th reason keeps the list a subsequence of the first k+1 reasons of the fixed order. |
| Github.ReasonOrderDistinct | src/github.ts:56-69 | The four reason strings are pairwise different. |
| Github.Reasons | src/github.ts:53-70 | The reasons are a subsequence of the fixed order `draft`, `label:suppress-pr-reminder`, `created_before_cutoff`, `no_allowlisted_reviewers`. The list is empty iff no check fails. |
| Github.ReasonsReported | src/github.ts:55-70 | Each of the four reasons is present exactly when its own condition holds. No check short-circuits another. |
| Github.FilterPR | src/github.ts:48-80 | Each reason is present iff its condition holds, in the fixed order. The cutoff is inclusive: a PR created at the cutoff gets no reason. `include` holds iff there are no reasons, iff the normalised PR is eligible. `normalized` is the input with its reviewers narrowed to the allowlist, included or not. |
| Github.ReasonsDistinct | src/github.ts:53-70 | The filter never reports a reason twice. |
| Github.EligibleIsFixpoint | src/github.ts:48-80 | An eligible PR is included, has no reasons, and comes back unchanged. |
| Github.FilterPRs | src/github.ts:41-46 | The output is no longer than the input. Every output PR is eligible: not a draft, not labelled `suppress-pr-reminder`, created at or after the cutoff, with a non-empty reviewer list that is all allowlisted. The output is a subsequence of the normalised inputs. |
| Github.FilterPRsComplete | src/github.ts:41-46 | Every included input reaches the output in its normalised form. |
| Github.FilterPRsOfEligible | src/github.ts:41-46 | A list of eligible PRs is returned unchanged. |
| Github.FilterPRsIdempotent | src/github.ts:41-80 | `filterPRs(filterPRs(xs)) == filterPRs(xs)`. |
| Github.FilterPRsAppend | src/github.ts:41-46 | Filtering distributes over appending one PR, which is the map/filter/map chain taken element by element. |
| Github.FilterPRsSingle | src/github.ts:41-46 | A one-element list filters to its normalised PR when that PR is included, and to nothing otherwise. |
| Github.ExcludedThenKept | src/github.ts:41-46 | An excluded PR followed by an eligible one filters to the eligible one alone. |
| Github.DraftExcludedScenario | src/github.test.ts:5-13 | A draft PR and a ready PR filter to the ready PR. |
| Github.SuppressedExcludedScenario | src/github.test.ts:15-23 | A PR labelled `suppress-pr-reminder` and a normal PR filter to the normal PR. |
| Github.NoReviewersExcludedScenario | src/github.test.ts:25-33 | A PR with no requested reviewers and a PR with one filter to the latter. |
| Github.SegmentEnd | src/github.ts:34 | `[^/]+` stops at the first `/` or at the end, and consumes no `/`. |
| Github.SegmentEndAt | src/github.ts:34 | A segment ends exactly at the first `/` after a run of non-`/` characters. |
| Github.ParseRepoFromUrl | src/github.ts:33-39 | On success the owner and the repository are non-empty and free of `/`. On failure the error is `Unable to parse repository from URL: <url>`. |
| Github.MatchAtSound | src/github.ts:34-38 | A match at position i spells `repos/<owner>/<repo>` there, and the repository segment runs to the end or to a `/`. |
| Github.MatchAtSegments | src/github.ts:34-38 | Both captured groups of a match are non-empty and free of `/`. |
| Github.MatchAtText | src/github.ts:34-38 | The matched text is `repos/` followed by the owner, `/` and the repository, ending at the end of the URL or at a `/`. |
| Github.MatchAtComplete | src/github.ts:34 | Wherever `repos/<owner>/<repo>` with non-empty, slash-free segments occurs, the regex matches at that position. |
| Github.FirstMatchFound | src/github.ts:34-38 | The leftmost match has non-empty, slash-free segments. |
| Github.FirstMatchIndex | src/github.ts:34 | The leftmost match starts at a position j, and no match starts before j. |
| Github.FirstMatchMissing | src/github.ts:34-37 | When there is no leftmost match, no match starts at any later position. |
| Github.FirstMatchSkip | src/github.ts:34 | Positions where no match starts do not change the leftmost match. |
| Github.ParseRepoFromUrlSound | src/github.ts:33-39 | On success, `repos/<owner>/<repo>` occurs at the returned position. Its repository segment runs to the end or to a `/`, and no occurrence starts earlier. |
| Github.ParseRepoFromUrlFails | src/github.ts:33-39 | The parse throws iff no `repos/<owner>/<repo>` with non-empty, slash-free segments occurs in the URL. |
| Github.NoMatchInPrefix | src/github.ts:34 | No match starts inside a prefix that contains no `r`. |
| Github.MatchAtPath | src/github.ts:34-38 | A trailing `repos/<owner>/<repo>` is matched with exactly that owner and repository. |
| Github.MatchAtEnd | src/github.ts:34-38 | The text `repos/<owner>/<repo>` that ends the URL is matched with these segments. |
| Github.ParseAfterPrefix | src/github.ts:33-39 | A URL ending in `repos/<owner>/<repo>`, with no `r` before that, parses to that owner and repository. |
| Github.ParseRepoFromUrlScenario | src/github.ts:33-39 | `https://api.github.com/repos/my-org/api` parses to owner `my-org`, repository `api`. |
| Github.Visit | src/github.ts:110-147 | One iteration aborts iff the hit is a pull request with a repository URL that does not parse, and then with the parse error. Otherwise it skips, tallies or appends. |
| Github.Collect | src/github.ts:104-148 | A completed loop selects no more PRs than hits, and every selected PR is eligible. |
| Github.Batch | src/github.ts:105 | A prefix of the search result: the whole result when it has at most 100 hits, otherwise exactly its first 100. |
| Github.FetchRecentPRs | src/github.ts:104-150 | The loop returns the parse error of an aborted run. Otherwise it returns the results and the tally of `Collect`, with `skipped` equal to the processed hits minus the results, between 0 and 100. Every result is eligible. |
| Github.CountReasons | src/github.ts:137-139 | Incrementing the tally once per reason gives the tally `AddReasons` describes. |
| Github.AddReasonsCounts | src/github.ts:137-139 | Each reason's count grows by its number of occurrences. A key is present iff it was present before or was reported. |
| Github.CollectAbortsForever | src/github.ts:116 | After an abort, later hits do not change the outcome. |
| Github.CollectAborts | src/github.ts:110-116 | The run aborts iff some hit is a pull request with an unparsable repository URL. The error is that of the first such hit. |
| Github.CollectClean | src/github.ts:110-116 | A run that completes met no unparsable repository URL. |
| Github.CollectFirstBad | src/github.ts:110-116 | An aborted run stopped at the first unparsable URL and carries its error. |
| Github.CollectSelects | src/github.ts:110-144 | The selected PRs are exactly `filterPRs` of the fetched candidates. Non-PR hits, hits without a URL and failed fetches contribute nothing. |
| Github.CollectKeepsOrder | src/github.ts:110-144 | The results keep hit order, and each result carries its own hit's repository. |
| Github.CollectTallies | src/github.ts:135-142 | For each reason, the tally counts the excluded candidates that reported it, each exactly once. A reason is a key iff its count is positive. |
| Slack.Logins | src/slack.ts:16-27 | Every requested reviewer of every PR is among the logins. |
| Slack.GroupOfSnoc | src/slack.ts:18-24 | Processing one more PR adds its reviewers to the logins. It appends the PR to each group once per time that PR names the reviewer. |
| Slack.GroupNonEmpty | src/slack.ts:18-24 | A login's group is non-empty iff the login is requested on some PR. |
| Slack.AddToGroups | src/slack.ts:19-24 | The inner loop adds the PR's reviewers as keys. Each group becomes the old group plus the PR, repeated once per occurrence of that reviewer. |
| Slack.GroupByReviewer | src/slack.ts:16-27 | The keys are exactly the reviewer logins of the input. Each group is `GroupOf`, and no group is empty. |
| Slack.LoginsExact | src/slack.ts:16-27 | A login is a key iff some PR requests it. |
| Slack.GroupCount | src/slack.ts:18-24 | A PR occurs in a reviewer's group (its input count) × (the times it names the reviewer) times. |
| Slack.GroupMembership | src/slack.ts:18-24 | A PR is in a login's group iff it is an input that requests that login. |
| Slack.GroupKeepsOrder | src/slack.ts:18-24 | Each group is an order-preserving subsequence of the input. |
| Slack.TotalGroupSize | src/slack.ts:16-27 | The sizes of all groups add up to the number of reviewer entries across the input. |
| Slack.LoginsAllowlisted | src/slack.ts:18-23 | Grouping PRs that passed the filter yields only allowlisted reviewers. |
| Slack.GroupingScenarioKeys | src/slack.test.ts:7-15 | PR one (alice, bob) and PR two (alice) give the reviewers alice and bob. |
| Slack.GroupingScenario | src/slack.test.ts:7-15 | Alice's group is [PR one, PR two] (two PRs). Bob's is [PR one] (one PR). |
| Slack.FormatMessage | src/slack.ts:29-52 | The built message equals `Render`. That is the empty-queue text when there are no reviewers. Otherwise it is the header, the tip, and one section per reviewer in ascending order, each with one line per PR. |
| Slack.RenderEmptyIff | src/slack.ts:32-37 | The message is the empty-queue text iff there is no reviewer. |
| Slack.SectionsAppend | src/slack.ts:39-49 | The sections of two key lists concatenated are the two renderings concatenated. |
| Slack.SectionsSplit | src/slack.ts:39-49 | The sections of a key list are those before key i, the section of key i, and those after. |
| Slack.RenderBySortedKeys | src/slack.ts:36-39 | A non-empty message is the header, the tip, and the sections in any strictly ascending listing of the keys. |
| Slack.SortedIndex | src/slack.ts:39 | Every reviewer key has a position in the sorted key list. |
| Slack.SectionShown | src/slack.ts:39-48 | Each reviewer's heading followed by that reviewer's PR lines appears in the message. |
| Slack.SectionsOrdered | src/slack.ts:39-49 | When reviewer a sorts before reviewer b, a's whole section appears before b's section begins. |
| Slack.PrLineAtFree | src/slack.ts:46-47 | A PR line adds no `@` beyond those in the PR's URL, repository and title and in the organisation. |
| Slack.PrLinesAtFree | src/slack.ts:45-48 | The same holds for a whole group's lines. |
| Slack.HeadingAtFree | src/slack.ts:40-43 | An unmapped reviewer's heading contains no `@`, so no `<@`. |
| Slack.HeaderAtFree | src/slack.ts:36 | The header line contains no `@`. |
| Slack.TipAtFree | src/slack.ts:37 | The tip line contains no `@`. |
| Slack.EmptyMessageAtFree | src/slack.ts:33 | The empty-queue text contains no `@`. |
| Slack.SectionsAtFree | src/slack.ts:39-49 | Sections of unmapped reviewers contain no `@` when the PR text contains none. |
| Slack.NoMentionWhenUnmapped | src/slack.ts:29-52 | With no reviewer mapped to a Slack id, the message contains no `@`. This holds when the PR text and the organisation contain none. |
| Slack.MentionShown | src/slack.ts:40-43 | A reviewer mapped to a non-empty Slack id gets `<@id>` in the message. |
| Slack.SingleReviewer | src/slack.ts:29-52 | One reviewer gives the header, the tip, that reviewer's heading, and the group's lines. |
| Slack.FixBugLine | src/slack.test.ts:19-30 | The Fix-bug PR renders as a bullet, a link to `https://github.com/my-org/api/pull/1` labelled `api#1`, and the title `Fix bug`. |
| Slack.AddDocsLine | src/slack.test.ts:32-41 | The Add-docs PR renders as a bullet, a link to `https://github.com/my-org/web/pull/3` labelled `web#3`, and the title `Add docs`. |
| Slack.MappedScenario | src/slack.test.ts:19-30 | Alice's message is the header, the tip mentioning `suppress-pr-reminder`, the heading `<@U01ALICE>`, and the Fix-bug line. |
| Slack.UnmappedScenario | src/slack.test.ts:32-41 | Charlie's message has the heading `Unmapped reviewer` and the Add-docs line. |
| Slack.UnmappedScenarioNoMention | src/slack.test.ts:32-41 | Charlie's message contains no `@`, so no `<@`. |
| Slack.EmptyScenario | src/slack.test.ts:43-46 | No reviewers gives `🎉 No PRs waiting for review! The queue is empty.` |
| Slack.FallbackUrlScenario | src/slack.ts:46 | A PR without `html_url` links to `https://github.com/my-org/web/pull/42`. |
| Slack.EmptyUrlScenario | src/slack.ts:46 | An empty `html_url` counts as missing and gives the same fallback link. |
| Text.NatToString | src/slack.ts:46-47 | A PR number renders as a non-empty string of decimal digits without leading zeros. |
| Text.DecimalRoundTrip | src/slack.ts:46-47 | Reading the rendered digits back gives the number. |
| Text.NatToStringInjective | src/slack.ts:46-47 | Different PR numbers render differently. |
| Text.LexLessIrreflexive | src/slack.ts:39 | No string sorts before itself. |
| Text.LexLessTransitive | src/slack.ts:39 | The string order is transitive. |
| Text.LexLessTotal | src/slack.ts:39 | Of two different strings, one sorts before the other. |
| Text.LexLessAsymmetric | src/slack.ts:39 | Two strings never sort before each other. |
| Text.LeastExists | src/slack.ts:39 | A non-empty key set has a least key. |
| Text.SortedKeys | src/slack.ts:39 | The sorted keys are strictly ascending and list exactly the key set. |
| Text.SortedUnique | src/slack.ts:39 | Only one strictly ascending sequence lists a given set. |
| Text.Least | src/slack.ts:39 | The selection pass returns the least key. |
| Text.Sort | src/slack.ts:39 | Sorting the keys gives the one ascending listing of the key set. |
| Config.NotAnObjectIff | src/config.ts:39-41 | The shape guard (falsy, not of type "object", or an array) rejects exactly null, booleans, numbers, strings and arrays. It accepts every object. |
| Config.FirstNonString | src/config.ts:44-48 | None iff every value is a string. Otherwise it gives the index of a non-string value with only string values before it. |
| Config.ReadUsersMap | src/config.ts:25-50 | The checks (read, parse, shape, then the early-exit pass over the entries) give `UsersMapOutcome`. |
| Config.UsersMapSucceeds | src/config.ts:25-50 | The users map is returned iff the file was read, parsed to an object, and every value is a string. |
| Config.FirstBadValueReported | src/config.ts:44-48 | The error names the first key in entry order whose value is not a string. |
| Config.ToUserMapKeys | src/config.ts:50 | The map's keys are exactly the object's keys. |
| Config.ToUserMapValues | src/config.ts:50 | With distinct keys, each key maps to its own value. |
| Config.ValidUsersMapUnchanged | src/config.ts:43-50 | A valid object is returned unchanged, key for key: the same keys, each with its value. |
| Config.EmptyObjectAccepted | src/config.ts:39-50 | `{}` is accepted as the empty map. |
| Config.ValidMapScenario | src/config.test.ts:15-19 | `{"alice": "U01ALICE"}` gives alice ↦ U01ALICE. |
| Config.InvalidJsonScenario | src/config.test.ts:21-24 | A parse failure is reported with a message containing `not valid JSON`. |
| Config.NumberValueScenario | src/config.test.ts:26-29 | `{"alice": 123}` is rejected with a message containing `must be a string`. |
| Config.EffectiveUsersMapPath | src/config.ts:58 | The path is never empty. It is the input when the input is non-empty, and `config/users.json` otherwise. |
| Config.LoadConfig | src/config.ts:53-69 | The configuration succeeds iff the users map at the effective path is valid, and fails with its error otherwise. The four inputs are passed through. |

## Left out

- `dist/index.js` is a generated bundle of an older variant. `src/index.ts` only wires the pieces together.
- Network calls are not modelled. The Octokit search and `pulls.get` become `SearchItem` records: the hit and the outcome of its detail request, and a thrown fetch error is `FetchFailed`. `postToSlack` is left out.
- Date handling is not modelled: `monthsAgoDate`, `formatDate`, the search query text, and the ISO parsing of `created_at`. The cutoff and the creation time are integer timestamps, so an unparsable date (an invalid `Date`) is not modelled.
- Logging is not modelled: `core.info`, `core.debug`, `console.warn` and the skip-reason breakdown string. The tally itself is modelled.
- Files and the environment are not modelled: `readFile`, `JSON.parse`, `resolveUsersMapPath` and `process.env`. Their outcome is a `ReadOutcome`. In `LoadConfig` it is looked up by the unresolved path.
- The required-input failures of `core.getInput` are not modelled.
- JavaScript object quirks are not modelled: prototype keys such as `constructor` in `grouped[...]`, and the integer-keys-first order of `Object.keys`/`Object.entries`. Entries are taken in the order given, and reviewer keys are sorted anyway.
- Text.LexLess: compares characters (code points), whereas `sort()` compares UTF-16 code units. The two orders agree on the Basic Multilingual Plane.
- Reviewer and label objects are reduced to their `login`/`name` strings. Other API fields of a pull request are dropped.
- Repeated keys in a parsed object are not collapsed. `JSON.parse` never returns them: for a repeated key it keeps the last value, at the first occurrence's position. A `JsonValue` object may still list a key twice, and `UsersMapOutcome` then checks every listed value, not only the last. The lemmas that compare the result with the object, `Config.ToUserMapValues` and `Config.ValidUsersMapUnchanged`, require `DistinctKeys`, the property every value `JSON.parse` returns has.
- JSON numbers are `real` values, so `NaN` and `Infinity`, which JSON cannot express, are left out.
- Slack.GroupKeepsOrder: stated for pull requests that name each reviewer once. A PR that repeats a reviewer appears in that group once per repetition, so its group is then not a subsequence of the input.
- Slack.NoMentionWhenUnmapped: assumes the organisation and the PRs' repository names, titles and URLs contain no `@`. The source copies that text into the message verbatim, so an `@` there would show up in the message.
- Slack.SectionsAtFree: makes the same assumption about the PR text.

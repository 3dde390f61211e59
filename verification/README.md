# Jira–GitHub pull-request checker, modelled in Dafny

This project models the decision logic of the Unicode Jira–GitHub PR checker bot and
proves properties of it. The bot watches pull requests. It reads the Jira ticket key at
the head of the title, the `UPPER_SNAKE=value` flags in the body, the ticket's status and
the commit list. From these it computes a verdict and publishes it as commit statuses.
After a force-push it also compares the files changed before and after the push and
comments on any difference.

Modules, one per component of the source:

- `Wrappers`: `Option` and `Result`.
- `Text`: the JavaScript string operations the code uses (`includes`, `substr(0, n)`,
  `split(",")`, number rendering), and the predicates `StartsWith` and `EndsWith`, which
  only state contracts. Strings are `seq<char>`, one `char` per UTF-16 code unit.
- `Config`: the environment variables the core reads, as an explicit record `Env`.
- `GitHub`: the pull-request and commit records.
- `TicketKey`: `parseMessage`, with the pattern `^([A-Z]+-\d+) \w` written out as a
  scanner.
- `PrFlags`: `parsePullRequestFlags`. The global multiline pattern
  `^([A-Z_]+)=(.*?)(\s*#.*)?$` is given JavaScript's semantics: a lazy value, `\s*` that
  may cross line breaks, `.` that stops at line terminators, and `^`/`$` at line breaks.
  A method runs the `exec` loop.
- `JiraStatus`: `getStatus`, which turns the tracker reply into a settled promise, and
  `getUrl`.
- `GitHubToken`: the installation-token cache of `getNewToken`. It is a class with the two
  module-level variables as fields.
- `GitHubStatus`: token selection in `getAuthenticatedOctokitClient`, the `createStatus`
  payload, and the `getCommits` query.
- `Verdict`: the rule chain of `getJiraInfo`.
- `ForcePush`: `checkForcePush`, which covers:
  - the `compareFilename` sort;
  - the two-cursor comparison loop with its rewinds, as a method;
  - building the comment body, as a method.
- `Touch`: `touch`, the statuses published for a verdict.

Network calls are parameters, and so are the clock, signing and `localeCompare`:
- `fetchReply` and `fetchCommits` stand for the ticket and commit lookups;
- `compare` stands for GitHub's compare call;
- `sign` and `mint` stand for signing the app's token and requesting an installation
  token;
- `clockMillis` is the clock;
- `lt` is an abstract strict total order on file names.

Two readings of the code that the model keeps exactly:
- A ticket key must be followed by exactly one space and then a word character
  (app.js:16), so a colon or tab after the key yields no key.
- The trunk branches of a maintenance merge are fixed to "master" and "main" (app.js:74),
  and so are they in `Verdict.IsMaintMerge`.

## Model

| member | source | states |
|---|---|---|
| Config.OrElse | app.js:77 | `v \|\| fallback`: the variable when it is set and non-empty, the fallback otherwise |
| Text.SplitComma | app.js:213 | `split(",")` gives at least one piece, none holds a comma, and joining them with commas gives the text back |
| Text.SplitJoin | app.js:213 | splitting a comma-join of comma-free pieces gives back the pieces |
| TicketKey.ParseMessage | app.js:16-25 | a key is returned only when the message starts with it, then one space, then a word character; when such a key exists, it is the one returned |
| TicketKey.LeadingKeysAreScanned | app.js:16-25 | every key the pattern accepts is a run of capitals, a hyphen and a run of digits at the head of the message |
| TicketKey.SeparatorMustBeSpace | app.js:16 | a colon or a tab after the key gives no key |
| TicketKey.KeyFollowedByWord | app.js:16-24 | key, space and word character at the head give that key |
| PrFlags.NameEnd | app.js:17 | `[A-Z_]+` runs to the first character outside the class |
| PrFlags.LineEnd | app.js:17 | `.*` stops at the first line terminator or the end |
| PrFlags.CommentEnd | app.js:17 | the comment group followed by `$` matches wherever a '#' stands and ends past its start |
| PrFlags.CommentGroup | app.js:17 | the comment group matches exactly when white space leads to a '#', and then ends at the end of that '#''s line |
| PrFlags.ValueEnd | app.js:17 | the lazy value ends at the first position where the rest of the pattern matches, or at the line end |
| PrFlags.MatchAt | app.js:17 | a match starts where it was tried and ends within the body |
| PrFlags.MatchAtExactly | app.js:17 | the pattern matches at a position exactly when a non-empty `[A-Z_]` run from there is followed by '=' |
| PrFlags.MatchShape | app.js:17 | a match is a non-empty `[A-Z_]` name, '=', a value without line breaks, and the rest of the line's comment |
| PrFlags.Exec | app.js:17 | `exec` from `lastIndex` returns the match at the first flag line at or after it, and none when no flag line is left |
| PrFlags.Matches | app.js:28-32 | the successive `exec` matches lie within the body, after the starting index |
| PrFlags.MatchesInOrder | app.js:28-32 | each successive match ends at or before the next one starts |
| PrFlags.MatchesAreAtFlagLines | app.js:32 | every match found is the pattern's match at a flag line |
| PrFlags.FlagLinesAreMatched | app.js:28-32 | no flag line after the start is skipped, except lines inside an earlier match |
| PrFlags.FlagLineAfterMatch | app.js:32 | every other flag line lies after the match `exec` returns |
| PrFlags.NoFlagLineInsideMatch | app.js:17 | no flag line starts strictly inside a match |
| PrFlags.Coerce | app.js:33-40 | "true" and "false" become booleans; a value with a numeric prefix becomes a number; anything else stays text |
| PrFlags.RecordLastWins | app.js:41 | the flags hold exactly the matched names, and a later duplicate overwrites an earlier one |
| PrFlags.RecordKeys | app.js:41 | assigning the matches adds exactly their names to the keys already present |
| PrFlags.RecordLast | app.js:41 | each name ends up with the coerced value of its last match |
| PrFlags.RecordKeeps | app.js:41 | a key no match names keeps its value |
| PrFlags.ParsePullRequestFlags | app.js:27-44 | the loop's map is the flags of the body: exactly the matched names, each with the coerced value of its last match |
| PrFlags.TrailingCommentDropped | app.js:17 | on a line with a trailing `\s*#...`, the value is the text before the white space and the comment |
| PrFlags.ValueToEndOfBody | app.js:17 | a flag line without '#' or a line break takes the rest of the body as its value |
| PrFlags.OnlyMatch | app.js:27-44 | a body that is one match has exactly that flag |
| PrFlags.OneCommentedLine | app.js:27-44 | `NAME=value ws#comment` yields exactly `{NAME: coerce(value)}` |
| PrFlags.OneBareLine | app.js:27-44 | `NAME=value` yields exactly `{NAME: coerce(value)}` |
| PrFlags.CommentedBooleanExample | app.js:34-35 | "FOO=true # comment" yields FOO = boolean true |
| PrFlags.NumberExample | app.js:38-39 | "BAR=3.5" yields BAR = number 3.5 |
| PrFlags.StringExample | app.js:33-41 | "BAZ=hello" yields BAZ = "hello" |
| JiraStatus.GetStatus | src/jira-status.js:10-26 | rejects exactly on an error whose first message lacks "does not exist", with that error; resolves null for a missing ticket or a reply without fields; resolves the status name otherwise |
| JiraStatus.GetIssue | src/jira-status.js:10-26 | the same classification as `GetStatus`, resolving the ticket itself: a reply with fields resolves to exactly that ticket, and null exactly where `GetStatus` resolves null |
| JiraStatus.IssueAgreesWithStatus | app.js:71 | the status read off `GetIssue` is the status `GetStatus` resolves, and both reject alike |
| JiraStatus.StatusNameOfResolvedString | app.js:71 | reading `.fields.status.name` off the string `getStatus` resolves: null gives null, a non-empty name throws |
| JiraStatus.FoundTicketThrows | app.js:71 | composed as written, a found ticket with a status makes the evaluation throw |
| JiraStatus.GetUrl | src/jira-status.js:28-30 | the link starts with "https://" and ends with the key |
| JiraStatus.UrlNamesKey | src/jira-status.js:28-30 | the key can be read back off the link |
| JiraStatus.UrlInjective | src/jira-status.js:28-30 | different keys give different links |
| GitHubToken.Step | src/github-token.js:17-49 | the cached token is reused while now + 60 < expiration; a failed refresh changes nothing; a refresh stores a token expiring at now + 300 |
| GitHubToken.RefreshStoresMintedToken | src/github-token.js:22-46 | a refresh stores and returns the token minted for the token signed with claims (now, now + 300, app id) |
| GitHubToken.ReuseWindow | src/github-token.js:19-22 | after a refresh at t, every call before t + 240 returns the same token and changes nothing |
| GitHubToken.StepKeepsConsistent | src/github-token.js:14-49 | a cache without a token keeps expiration 0, and a successful call returns a token |
| GitHubToken.FirstCallRefreshes | src/github-token.js:14-21 | the first call after loading mints a token |
| GitHubToken.TokenCache.constructor | src/github-token.js:14-15 | the cache starts without a token and with expiration 0 |
| GitHubToken.TokenCache.GetNewToken | src/github-token.js:17-49 | the result and the new fields are those of `Step` on the old fields |
| GitHubStatus.ChooseTokenSource | src/github-status.js:8-17 | token precedence: a truthy argument, then GITHUB_TOKEN, then the app token when GITHUB_APP_ID is set; otherwise missing |
| GitHubStatus.ExplicitTokenWins | src/github-status.js:9 | with a non-empty token argument the environment does not matter |
| GitHubStatus.GetAuthenticatedClient | src/github-status.js:8-21 | authenticates with the chosen token; only the app branch touches the cache; missing credentials raise the fixed error |
| GitHubStatus.StatusPayloadOf | src/github-status.js:23-39 | state "success" exactly when passing; the owner and repo of the base; the sha of the head; the context is the status id; the description is the prefix of length min(130, length) |
| GitHubStatus.DescriptionFits | src/github-status.js:36-37 | the sent description is at most 140 characters, and whole exactly when it has at most 130 |
| GitHubStatus.ResendIsStable | src/github-status.js:37 | resending the sent description sends the same payload |
| GitHubStatus.CreateStatus | src/github-status.js:23-42 | sends that payload; fails without credentials; uses GITHUB_TOKEN when that is the source; for the app, the cache advances as `Step` says and the minted or reused token authenticates the post, or its failure fails the call; otherwise the cache is unchanged |
| GitHubStatus.CommitsQuery | src/github-status.js:65-71 | `per_page` is 100 unless the caller sets it; every caller parameter is kept |
| GitHubStatus.PullRequestQuery | app.js:65-69 | the commit query names the base repository and the pull-request number, 100 per page |
| Verdict.FirstBadCommit | app.js:97-123 | the first commit that fails the consistency rule, all earlier ones passing; none when all pass |
| Verdict.CommitVerdict | app.js:99-121 | a bad commit fails the verdict and is recorded in it; the ticket, status, count, merge kind and flags are kept; a commit without a key "fails validation"; one for another ticket names its short sha and both keys and carries the hint |
| Verdict.MismatchHintNamesWaiver | app.js:119 | the hint on a commit for another ticket names the setting DISABLE_JIRA_ISSUE_MATCH=true that waives the rule |
| Verdict.Evaluate | app.js:71-149 | passes exactly when the status rule passes, every commit is consistent (when matching is on), and there are not exactly 100 commits; a pass carries the summary description |
| Verdict.GetJiraInfo | app.js:50-70 | the flags are always parsed; a title without a key gives the no-key verdict without lookups |
| Verdict.LoadedVerdict | app.js:62-73 | with a key: a ticket failure, then a commit failure, fails the evaluation; otherwise the rules decide on what was loaded |
| Verdict.TicketReplyReachesVerdict | app.js:62-93 | with the status rule failing, a missing ticket is reported as not found and a found one with its status |
| Verdict.StatusRuleFirst | app.js:81-93 | a rejected status decides first: "not found" for a missing ticket, the status otherwise |
| Verdict.ReviewIsAccepted | app.js:77-81 | the status test is a substring test: "Review" is accepted by default |
| Verdict.MissingTicketRejected | app.js:81-90 | with the check on, a missing ticket fails the default rule |
| Verdict.AcceptedIsApproved | app.js:77-81 | "Accepted" passes the default rule |
| Verdict.AcceptedSingleCommitPasses | app.js:71-149 | an accepted ticket and one commit for it pass, with the summary in the description |
| Verdict.MaintMergeWaivesMismatch | app.js:110 | a maintenance merge passes with a commit for another ticket |
| Verdict.FirstBadCommitDecides | app.js:96-123 | the first inconsistent commit decides; without a key it "fails validation"; with another key the description names the short sha and both keys, and the hint is attached |
| Verdict.WaiverKeepsKeyCheck | app.js:99-110 | a waiver still fails commits without a key |
| Verdict.FullPageFails | app.js:96-138 | exactly 100 commits fail the verdict with the rebase message when the status is approved and commit matching is off or every commit is consistent |
| ForcePush.CompareFilename | app.js:168-172 | an entry without a name compares after anything; a named entry compares before an unnamed one |
| ForcePush.BeforeIsStrictOrder | app.js:168-172 | under a strict total order, the comparator's "before" is irreflexive and transitive |
| ForcePush.SortFiles | app.js:173-174 | the sorted copy is a permutation of the list |
| ForcePush.SortFilesSorted | app.js:173-174 | the sorted copy is ordered by `compareFilename` |
| ForcePush.SortKeepsListing | app.js:173-174 | sorting a list of distinct, non-empty names keeps the names distinct and non-empty |
| ForcePush.ShasOfPermutation | app.js:173-174 | reordering such a list keeps the sha recorded for every name |
| ForcePush.Changes | app.js:176-195 | the differences between two sorted lists, at most one per entry |
| ForcePush.EarlierDiffersOnlyThere | app.js:186-193 | the corrected test differs from the written one only for an unnamed entry against an exhausted cursor |
| ForcePush.CompareFileLists | app.js:176-195 | the loop's errors are the messages of `Changes`; it terminates |
| ForcePush.LoopAsWrittenNeverEnds | app.js:176-195 | as written, a lone unnamed entry against an empty list makes the loop run forever |
| ForcePush.NoChangesBetweenEqualLists | app.js:176-182 | identical lists differ nowhere |
| ForcePush.ChangesClassify | app.js:176-195 | on ascending lists, exactly the names only before, only after, and in both with different shas are reported |
| ForcePush.ComparisonFindsDifferences | app.js:160-195 | for GitHub's file lists, the sorted comparison reports exactly the files changed only before, only after, or to different shas |
| ForcePush.NoChangesExactlyWhenSameFiles | app.js:176-206 | no difference is reported exactly when both heads change the same files to the same shas |
| ForcePush.AddedFileExample | app.js:176-195 | adding "c.txt" next to an unchanged "a.txt" reports only "c.txt is now changed in the branch" |
| ForcePush.CommentBody | app.js:196-209 | the built body is the comment text |
| ForcePush.CommentShape | app.js:196-209 | the comment ends with the signature; it is the all-clear exactly when there is no difference; otherwise it opens with the notice |
| ForcePush.ErrorIsListed | app.js:198-201 | every difference appears as its own list item |
| ForcePush.CheckForcePush | app.js:152-211 | a failing compare call fails the check and nothing is posted; nothing is posted unless the push diverged; otherwise the comment on the compared, sorted file lists is posted on the pull request |
| Touch.Touch | app.js:215-244 | nothing for a listed repository or a pull request that is not open; otherwise first the ticket status, with the verdict's pass and description |
| Touch.PublishedContexts | app.js:232-243 | publishes "jira-ticket", then "single-commit" unless ALLOW_MANY_COMMITS is "TRUE", then "maint-merge" exactly for a maintenance merge |
| Touch.SingleCommitStatus | app.js:229-238 | the single-commit status carries the rule's pass and message |
| Touch.MaintMergeReminderFails | app.js:240-242 | the maintenance reminder is last and always fails |
| Touch.MaintMergeNeverAllGreen | app.js:240-243 | a maintenance merge always has a failing status |
| Touch.MultiCommitRule | app.js:229-230 | no commits or an unknown count fails; one commit passes; several pass exactly for a maintenance merge or the ALLOW_MANY_COMMITS flag |
| Touch.SquashHint | app.js:231 | a failing count over one names the count and asks for a squash |
| Touch.ListedRepositoryUntouched | app.js:213-221 | a repository named in DO_NOT_TOUCH_REPOS gets no status |

## Left out

- Web server, routes, OAuth login, the squash flow, `github-user.js`, `server.js`, the
  `bin/` scripts and logging: not part of this model.
- Network calls: the ticket lookup, commit listing, compare call, status and comment
  posting are parameters or returned values. `makeViewUrl` is the parameter `infoUrl` of
  `Touch.Touch`. The Octokit client is the token it is built with.
- Promise.all: the two lookups of `getJiraInfo` are modelled in sequence, with a ticket
  failure reported before a commit failure; likewise the two compare calls of
  `checkForcePush`, the before-side failure first. Which rejection wins in time is not
  modelled. The three status posts of `touch` are a list
  in push order, not concurrent requests.
- Verdict.GetJiraInfo: reads the tracker's reply through `GetIssue`, the evidently
  intended lookup, rather than composing the as-written `getStatus` string (see Findings).
- JiraStatus.GetStatus: does not model the TypeError of a reply whose `fields` lacks
  `status`.
- PrFlags.Coerce: a number keeps its text; the float `parseFloat` computes is not
  modelled. Truthiness of a number is "some mantissa digit is non-zero", so a text that
  underflows to zero, such as "1e-400", is truthy in the model but falsy in JavaScript.
- ForcePush.SortFiles: `localeCompare` is an abstract strict total order. Orders with ties
  between distinct strings are not modelled. `Array.prototype.sort` is taken to be stable;
  it is an insertion sort in the model. Two unnamed entries compare inconsistently
  (each after the other), and the engine's order for them is unspecified.
- ForcePush.FileEntry: a missing `filename` and an empty one are both the empty name; a
  missing name compared with `{}` is not modelled separately.
- GitHubToken.Step: the JWT signing, the PEM key and the installation id are behind
  `sign` and `mint`. `new Date()` is the parameter `clockMillis`.
- ForcePush.Hooray: the emoji is one Dafny `char`, where JavaScript holds two UTF-16
  code units; only the text's content, not its length in code units, is modelled.
- Verdict.IsMaintMerge: a bool, where the JavaScript `&&` chain (app.js:74-76) yields
  `null` for a head that is not a `maint/` branch; only its truthiness, the one use the
  code makes of it, is modelled.
- Text: characters are UTF-16 code units; `substr` on surrogate pairs and locale rules are
  not modelled.
- The commit list is the first page of up to 100 commits, as the code asks for it.
- GitHub.PullRequest: `body` is a string; the `null` GitHub sends for an empty
  description is modelled as the empty body (`exec` on `null` reads "null", which holds
  no flag line either, so the flags are the same).

## Findings

| source | as written | input that shows it | evidently intended | confidence | as-written member | corrected member |
|---|---|---|---|---|---|---|
| app.js:186-193 | `compareFilename(file1, file2) < 0` picks the earlier side; an unnamed entry compares after the `{}` of an exhausted list, so the after-side is taken, `i--` rewinds, and the loop never advances past the entry | before-files `[{filename: "", sha: s}]`, after-files `[]`, on a diverged push | an exhausted cursor is never the earlier side, so the loop ends | not executed; GitHub names every file, so unlikely in practice | ForcePush.LoopAsWrittenNeverEnds | ForcePush.CompareFileLists |
| app.js:71 | reads `jiraIssue.fields.status.name`, but `getStatus` (src/jira-status.js:20) already resolves the status name string | a ticket that exists with status "Accepted" | the verdict reads the found ticket's status and summary | not executed | JiraStatus.FoundTicketThrows | JiraStatus.GetIssue |

# voting-system, modelled in Dafny

This is a model of the rules in a small poll-and-comment board. Visitors answer
three two-option questions: q1 is arrival/save, q2 is death/live and q3 is
exist/extinct. They can also post comments, page through them newest first and
like them. The server keys everything by the caller's IP address.

The model keeps the board's own rules and replaces its databases with values in
memory.

- **Schemas.** `VoteSchema` and `CommentSchema` hold the two record schemas:
  their required fields, bounds and defaults, and the unique (question, ip)
  index.
- **Vote routes.** `VoteRoutes` covers `/stats` (the tally loop), `/check` and
  `/submit`. `/submit` deletes the caller's earlier votes first, then validates,
  then saves one record per entry. `VoteStore` is a class whose `Submit` method
  rewrites its record list in place. Its results are proved against the
  function `SubmitSpec`, and the properties are proved about `SubmitSpec`.
- **Comment routes.** `CommentRoutes` covers the newest-first listing with
  skip/limit and `ceil(total / limit)` pages, and comment creation. Creation
  checks for empty content after trimming but checks the length before
  trimming. `CommentRoutes` also covers the like toggle, which keeps
  `likes == |likedBy|`, and delete. `CommentStore` is a class whose methods
  append, update in place and remove.
- **Middleware.** `IpCheck` covers the client-address fallback chain and the
  mapping of the geolocation answer. `Request.AddIpInfo` sets the two request
  fields.
- **CORS.** `Cors` holds the origin predicate.
- **Browser script.** `Client` covers `formatTimeAgo` (a loop over the units),
  the winner loop and the label table. It also covers the comment input check
  and the page state as the class `ClientState`: the choices, the submit
  button, the current page, the load-more button and the liked set.
- **Client and server together.** `ClientServer` relates the two sides:
  - what the page sends is what the server accepts;
  - the comment text the page checks is stored as sent;
  - the page's liked set tracks the server's list of likers.
- **Shared pieces.** `Text` holds the JavaScript string operations the code
  relies on: `trim` with JavaScript's whitespace set, `startsWith`,
  `includes`, `split(',')[0]` and decimal rendering of a number. `Wrappers`
  holds `Option`, `Result` and the HTTP error kinds.

Each request handler is modelled by a function of the current store and the
request, or by a method on the store class. Inputs that come from outside
become parameters:
- the clock: `now`, and the elapsed milliseconds for `formatTimeAgo`;
- the request headers;
- the geolocation service's answer;
- the server's reply, for the page's handlers.

## Model

| member | source | states |
|---|---|---|
| VoteSchema.Create | backend/models/Vote.js:3-27 | Saving succeeds exactly when the question is q1, q2 or q3 and the option and ip are non-empty. The saved record keeps question, option, ip, the location triple and the user agent. Its timestamp is the given one, otherwise now. |
| VoteSchema.OptionIsNotCheckedAgainstQuestion | backend/models/Vote.js:4-12 | The schema accepts q1 with option "live", which belongs to q2: it does not tie the option to the question. An unknown question "q4" is refused. |
| CommentSchema.Create | backend/models/Comment.js:3-38 | Saving succeeds exactly when the content is non-empty and at most 500 characters, the ip is present, and the nickname or its default '匿名用户' is at most 20 characters. likes defaults to 0 and the timestamp to now. The stored comment is valid. |
| VoteRoutes.AllowedPairsAreTheTable | backend/routes/votes.js:73-77 | The six allowed (question, option) pairs are exactly the pairs the validation table accepts. |
| VoteRoutes.Tally | backend/routes/votes.js:118-137 | The counting loop over all records returns the statistics of the store: each allowed pair's count of matching records, and the number of distinct ips. |
| VoteRoutes.CountAppend | backend/routes/votes.js:126-130 | The count over two concatenated record lists is the sum of the two counts. |
| VoteRoutes.UnknownRecordIsIgnored | backend/routes/votes.js:17-21 | A record whose pair is not in the table leaves every count unchanged. Its ip still counts as a voter. |
| VoteRoutes.KnownRecordIsCounted | backend/routes/votes.js:17-21 | Adding a record adds one to its own pair's count and nothing to the other pairs. |
| VoteRoutes.Count | backend/routes/votes.js:126-130 | Definition: the number of records with that question and option. Its properties are in `CountAppend`, `KnownRecordIsCounted` and `UnknownRecordIsIgnored`, and `Tally` is proved against it. |
| VoteRoutes.Voters | backend/routes/votes.js:132-135 | Definition: the set of ips over all records; `totalVoters` is its size. `Tally` is proved against it, and `UnknownRecordIsIgnored` states how it grows. |
| VoteRoutes.StatsOf | backend/routes/votes.js:118-137 | Definition of the statistics: `Count` per allowed pair and the number of `Voters`. `Tally` and `SubmitReportsNewStats` are proved against it. |
| VoteRoutes.CurrentVotes | backend/routes/votes.js:40-46 | Definition of the per-question snapshot built from `FirstOption`, which `/check` and comment creation (comments.js:50-55) both use. Its properties are in `FirstOption`, `CheckAfterSubmit` and `FirstOptionOwnRecords`. |
| VoteRoutes.Saved | backend/routes/votes.js:86-96 | Definition: the records the saves produce, in entry order, skipping rejected ones. Its properties are in `SavedIsOneRecordPerEntry`, `SavedFacts`, `SavedDistinct` and `CountDistinctEntries`, and `SaveAll` is proved against it. |
| VoteRoutes.AnyRejected | backend/routes/votes.js:86-96 | Definition: some save is rejected, so `Promise.all` rejects and the reply is 500. `RejectedIffEmptyAddress` characterises it. |
| VoteRoutes.SubmitSpec | backend/routes/votes.js:61-115 | Definition of `/submit`: the body check, the delete, the validation, the saves and the stats reply, in the source's order. Its properties are in `MalformedBodyChangesNothing`, `RejectedSubmissionStillDeletes`, `SubmitSucceedsIff`, `SubmitReplacesCallerVotes`, `ResubmitReplaces`, `SubmitReportsNewStats`, `CheckAfterSubmit` and `SubmitKeepsUniqueIndex`. |
| VoteRoutes.FirstMatch | backend/routes/votes.js:43-45 | `votes.find` returns the first record with the caller's ip and the question, or nothing when no record matches. |
| VoteRoutes.FirstOption | backend/routes/votes.js:43-45 | The reported option is non-null exactly when the first matching record has a non-empty option, and it is that record's option. |
| VoteRoutes.Check | backend/routes/votes.js:38-58 | hasVoted is always false. The votes are the caller's first-match option per question. |
| VoteRoutes.RemoveIp | backend/routes/votes.js:70 | After the delete, the store holds exactly the records of other ips. |
| VoteRoutes.RecordsOf | backend/routes/votes.js:40 | Returns exactly the records with the given ip. |
| VoteRoutes.VoteStore.constructor | backend/models/Vote.js:30 | The store starts empty and satisfies the unique (question, ip) index. |
| VoteRoutes.VoteStore.Submit | backend/routes/votes.js:61-115 | The reply, the new record list and the broadcast statistics are those of `SubmitSpec`: delete, then validate, then save. The unique index is preserved. |
| VoteRoutes.VoteStore.SaveAll | backend/routes/votes.js:86-96 | The save loop appends one record per entry the schema accepts. It reports failure exactly when some save is rejected. |
| VoteRoutes.SavedFacts | backend/routes/votes.js:86-94 | Every saved record has the caller's ip and satisfies the schema. |
| VoteRoutes.SavedIsOneRecordPerEntry | backend/routes/votes.js:86-94 | When no save is rejected, there is one record per entry, in order, with that entry's question and option. |
| VoteRoutes.RejectedIffEmptyAddress | backend/routes/votes.js:86-96 | For validated entries, a save is rejected exactly when the caller has no address and there is at least one entry. |
| VoteRoutes.RemoveIpKeepsValid | backend/routes/votes.js:70 | Deleting an ip's records keeps every record valid and keeps the index unique. |
| VoteRoutes.RemoveIpKeepsUnique | backend/routes/votes.js:70 | Deleting an ip's records keeps the (question, ip) pairs unique. |
| VoteRoutes.SavedKeepsValid | backend/routes/votes.js:86-96 | Appending the saved records of distinct questions to a store without the caller keeps it valid and unique. |
| VoteRoutes.SavedDistinct | backend/routes/votes.js:86-94 | The saved records have unique (question, ip) pairs, and each one comes from an entry. |
| VoteRoutes.MalformedBodyChangesNothing | backend/routes/votes.js:65-67 | A missing or non-object `votes` body gets 400 '无效的投票数据', and the store is unchanged. |
| VoteRoutes.RejectedSubmissionStillDeletes | backend/routes/votes.js:70-83 | An invalid entry gets 400 '无效的选项', but the caller's earlier records are already gone. Other ips' records are unchanged. |
| VoteRoutes.SubmitSucceedsIff | backend/routes/votes.js:63-108 | Submission succeeds exactly when the body is an object, every entry is in the table, and the caller has an address or sent no entries. A partial or empty ballot can succeed. |
| VoteRoutes.SubmitReplacesCallerVotes | backend/routes/votes.js:70-96 | After success, the caller's records are exactly one per entry with the submitted option. Every other ip's records are unchanged. |
| VoteRoutes.ResubmitReplaces | backend/routes/votes.js:70-96 | Two successful submissions leave only the second ballot for the caller, so votes do not accumulate. |
| VoteRoutes.SubmitReportsNewStats | backend/routes/votes.js:99-108 | The returned statistics are those of the new store. Each pair's count is the other ips' count plus one when the pair was submitted. |
| VoteRoutes.CountDistinctEntries | backend/routes/votes.js:86-94 | A ballot with distinct questions adds exactly one record to each submitted pair and none to any other. |
| VoteRoutes.CheckAfterSubmit | backend/routes/votes.js:40-96 | After success, `/check` reports option o for question q exactly when (q, o) was submitted. |
| VoteRoutes.FirstOptionOfBallot | backend/routes/votes.js:43-45 | Over the records of a valid ballot with distinct questions, the first-match option of q is o exactly when (q, o) is an entry. |
| VoteRoutes.EntryIsFirstMatch | backend/routes/votes.js:43-45 | Each entry of such a ballot is what the lookup finds for its own question. |
| VoteRoutes.FirstOptionOwnRecords | backend/routes/votes.js:40-45 | Looking up among all records gives the same option as looking up among the caller's records only. |
| VoteRoutes.SubmitKeepsUniqueIndex | backend/models/Vote.js:30 | Every submission keeps the store free of two records with the same (question, ip), so the duplicate-key path cannot occur. |
| CommentRoutes.CeilDiv | backend/routes/comments.js:28 | `Math.ceil(total / limit)`: for a positive limit, the least r with total <= r * limit. A negative limit is handled too. |
| CommentRoutes.Insert | backend/models/Comment.js:40 | Inserting into a newest-first list keeps it newest first and adds exactly that comment. |
| CommentRoutes.SortNewestFirst | backend/routes/comments.js:15 | Sorting by descending timestamp gives a newest-first permutation of the store. |
| CommentRoutes.Window | backend/routes/comments.js:16-17 | `skip(n).limit(m)` keeps min(m, what is left) comments, and none when skip passes the end. |
| CommentRoutes.WindowAt | backend/routes/comments.js:16-17 | The k-th kept comment is the (skip + k)-th of the input. |
| CommentRoutes.OrDefault | backend/routes/comments.js:10-11 | Definition of the `parseInt` fallback: a missing or zero argument takes the default. `MissingArgumentsMeanFirstPageOfTwenty` states it for the listing. |
| CommentRoutes.List | backend/routes/comments.js:8-34 | Definition of the GET handler: defaults, skip, sort, window and pagination. Its properties are in `ListIsWindowOfSorted`, `WindowOfSortedStore`, `ListPagination`, `PageBelowOneFails`, `PagesCountNonEmptyPages`, `MissingArgumentsMeanFirstPageOfTwenty` and `FortyFiveCommentsMakeThreePages`. |
| CommentRoutes.SortKeepsComments | backend/routes/comments.js:14-15 | Sorting keeps the size and exactly the members of the store. |
| CommentRoutes.WindowOfSorted | backend/routes/comments.js:15-17 | A window of a newest-first list is newest first and drawn from it. |
| CommentRoutes.ListIsWindowOfSorted | backend/routes/comments.js:10-17 | For page, limit >= 1, the listing succeeds and is the window after (page-1)*limit of the sorted store. |
| CommentRoutes.WindowOfSortedStore | backend/routes/comments.js:14-17 | The listed page is newest first, has the expected size, holds consecutive sorted comments, and holds only stored comments. |
| CommentRoutes.MissingArgumentsMeanFirstPageOfTwenty | backend/routes/comments.js:10-11 | A missing or zero page or limit falls back to page 1 and limit 20. |
| CommentRoutes.PageBelowOneFails | backend/routes/comments.js:12-33 | A negative page gives a negative skip, which the database refuses, so the reply is a server error. |
| CommentRoutes.PagesCountNonEmptyPages | backend/routes/comments.js:19-28 | The reported page count p satisfies (p-1)*limit < total <= p*limit. |
| CommentRoutes.PagesUpToIsPrefix | backend/routes/comments.js:16-17 | The first k pages, concatenated, are the first k*limit sorted comments. |
| CommentRoutes.ListPagination | backend/routes/comments.js:19-29 | The pagination is (page, limit, total, ceil(total/limit)). |
| CommentRoutes.AllPagesCoverTheStore | backend/routes/comments.js:16-28 | Pages 1 to `pages`, concatenated, give the whole sorted store: nothing is lost or repeated. |
| CommentRoutes.FortyFiveCommentsMakeThreePages | backend/routes/comments.js:10-28 | 45 comments with limit 20 give pages = 3 and page sizes 20, 20, 5, 0. |
| CommentRoutes.CreateComment | backend/routes/comments.js:37-82 | Failures are 400s or 500s. It is a 400 exactly when the content is missing, falsy, blank after trimming, or over 500 characters as sent. |
| CommentRoutes.CreateSucceedsIff | backend/routes/comments.js:39-69 | Creation succeeds exactly when the content is a string that is non-blank and at most 500 characters, the nickname is absent or a string whose result is at most 20 characters, and the caller has an address. |
| CommentRoutes.CreatedCommentContents | backend/routes/comments.js:50-67 | The new comment holds the trimmed content and the trimmed nickname or '匿名用户'. It also holds the caller's ip, country and city, the vote snapshot, no likes and the current time. It is valid and its likes are consistent. |
| CommentRoutes.ContentLengthBoundary | backend/routes/comments.js:45-47 | Non-blank content of 500 characters is accepted and of 501 is refused with '评论内容过长'. |
| CommentRoutes.NicknameOf | backend/routes/comments.js:60 | Definition of the nickname rule: the trimmed nickname, or '匿名用户' when it is absent or blank. `CreatedCommentContents` states that the stored nickname is this value. |
| CommentRoutes.TooLongIsRefused | backend/routes/comments.js:45-47 | Non-blank content longer than 500 characters as sent is refused with '评论内容过长', whatever the nickname. |
| CommentRoutes.PaddingCountsAgainstLimit | backend/routes/comments.js:45-59 | Trailing whitespace is trimmed before storing but still counts against the 500-character limit. |
| CommentRoutes.UntrimmedLengthIsChecked | backend/routes/comments.js:45-47 | "a" followed by 500 spaces trims to "a", yet it is refused as too long. |
| CommentRoutes.RemoveAll | backend/routes/comments.js:98 | `filter(ip => ip !== clientIP)` removes every occurrence of the ip and keeps every other address. It shrinks the list by the number of occurrences. |
| CommentRoutes.NoDupCount | backend/routes/comments.js:94-103 | In a list without duplicates, an address occurs once or not at all. |
| CommentRoutes.Toggle | backend/routes/comments.js:94-104 | Definition of the like toggle on one comment. Its properties are in `ToggleFlipsOnlyTheCaller`, `ToggleKeepsLikesConsistent`, `ToggleTwiceRestores` and `ToggleKeepsInvariant`. |
| CommentRoutes.ToggleFlipsOnlyTheCaller | backend/routes/comments.js:94-117 | hasLiked is the negation of prior membership, and the caller's membership flips. Other addresses are unchanged. likes goes up by one, or down by one floored at 0. No other field changes. |
| CommentRoutes.ToggleKeepsLikesConsistent | backend/routes/comments.js:96-104 | A toggle preserves likes == |likedBy| and the absence of duplicates. |
| CommentRoutes.ToggleTwiceRestores | backend/routes/comments.js:96-104 | Toggling twice restores likes and the multiset of likers. From "not liked" it restores the comment exactly. |
| CommentRoutes.UnlikeThenLike | backend/routes/comments.js:96-104 | Unliking then liking restores likes and the likers up to order: the caller moves to the end. |
| CommentRoutes.LikeThenUnlike | backend/routes/comments.js:96-104 | Liking then unliking restores the comment exactly. |
| CommentRoutes.RemoveAllMultiset | backend/routes/comments.js:98 | The filter sets the ip's multiplicity to 0 and keeps every other address's. |
| CommentRoutes.IndexOf | backend/routes/comments.js:87-91 | `findById` returns a position holding that id, or nothing when no comment has it. |
| CommentRoutes.RemoveId | backend/routes/comments.js:128 | `findByIdAndDelete` leaves exactly the comments with other ids. |
| CommentRoutes.CommentStore.constructor | backend/models/Comment.js:3-38 | The store starts empty and satisfies the store invariant. |
| CommentRoutes.CommentStore.Create | backend/routes/comments.js:37-82 | The reply is `CreateComment` with the snapshot of the caller's votes and the next id. The comment is appended and broadcast only on success. The invariant is kept. |
| CommentRoutes.CommentStore.ToggleLike | backend/routes/comments.js:85-122 | An unknown id gives 404 '评论不存在', and nothing changes. Otherwise that comment alone is replaced by its toggle, and the reply and broadcast carry the new likes and hasLiked. |
| CommentRoutes.CommentStore.Delete | backend/routes/comments.js:125-136 | Removes the comment with that id, if any, and broadcasts the id. The invariant is kept. |
| CommentRoutes.ToggleKeepsInvariant | backend/routes/comments.js:94-106 | Replacing one comment by its toggle keeps every comment valid and consistent, and the ids unique. |
| CommentRoutes.RemoveIdKeepsInvariant | backend/routes/comments.js:128 | Deleting keeps the store invariant. |
| CommentRoutes.AppendKeepsInvariant | backend/routes/comments.js:69 | Appending a valid, consistent comment with the next id keeps the store invariant. |
| CommentRoutes.RemoveIdKeepsUnique | backend/routes/comments.js:128 | Deleting keeps the ids unique. |
| CommentRoutes.DeleteRemovesOnlyThatComment | backend/routes/comments.js:125-132 | Deleting an unknown id changes nothing. Otherwise only the comments with that id go. |
| IpCheck.ClientIp | backend/middleware/ipCheck.js:4-10 | The address is the first non-empty candidate in order: the first segment of X-Forwarded-For, X-Real-IP, the connection address, the socket address, then req.ip. |
| IpCheck.ForwardedForWins | backend/middleware/ipCheck.js:5 | With a non-empty first segment, the address is a comma-free prefix of X-Forwarded-For. |
| IpCheck.ForwardedForIsNotTrimmed | backend/middleware/ipCheck.js:5 | " 10.0.0.1, 10.0.0.2" yields " 10.0.0.1", keeping its leading space. |
| IpCheck.LeadingCommaFallsBack | backend/middleware/ipCheck.js:5-6 | A header starting with ',' has an empty first segment, so X-Real-IP is used. |
| IpCheck.InfoFrom | backend/middleware/ipCheck.js:21-36 | A 'success' answer maps to (country, city, regionName). Anything else maps to (Unknown, Unknown, Unknown). |
| IpCheck.Request.AddIpInfo | backend/middleware/ipCheck.js:40-48 | Sets clientIP to the extracted address and ipInfo to the mapped answer for it. |
| Cors.CheckOrigin | backend/server.js:27-44 | An origin is allowed exactly when it is absent or empty, starts with 'http://localhost' or 'http://127.0.0.1', or contains '.vercel.app'. Every other origin is denied with 'Not allowed by CORS'. |
| Cors.NoOriginIsAllowed | backend/server.js:29 | Absent and empty origins are allowed. |
| Cors.LocalPrefixIsAllowed | backend/server.js:32-35 | Any string after either local prefix is allowed. |
| Cors.LookAlikeHostIsAllowed | backend/server.js:32-35 | 'http://localhost.example.com' passes the prefix test. |
| Cors.VercelAnywhereIsAllowed | backend/server.js:38-40 | '.vercel.app' anywhere in the origin is enough. |
| Cors.HttpsLocalHostIsDenied | backend/server.js:43 | 'https://localhost' matches no rule and is denied. |
| Text.Trim | backend/routes/comments.js:41 | `trim()` result: a contiguous slice of the input with only white space before and after it (`IsTrimOf`). It is empty exactly when the input is all white space, and otherwise has no white space at either end. |
| Text.TrimIdempotent | frontend/js/app.js:434-435 | Trimming twice is trimming once, so what the page sends is already trimmed. |
| Text.TrimDropsTrailingSpace | backend/routes/comments.js:59 | Trailing whitespace does not change the trimmed result. |
| Text.StartsWith | backend/server.js:32-33 | `startsWith` holds exactly when the prefix fits and matches. |
| Text.Includes | backend/server.js:38 | `includes` holds exactly when the text occurs at some position. |
| Text.FirstSegment | backend/middleware/ipCheck.js:5 | `split(',')[0]` is the longest comma-free prefix. It ends at the first comma or at the end. |
| Text.FirstSegmentOf | backend/middleware/ipCheck.js:5 | For a comma-free a, the first segment of a + ',' + b is a. |
| Text.Decimal | frontend/js/app.js:546 | The rendering of a number is a non-empty string of digits with that value. It starts with '0' only for the number 0. |
| Client.FirstUnitFrom | frontend/js/app.js:543-548 | Finds the first unit, in table order, that is no larger than the seconds, or none. |
| Client.TimeAgo | frontend/js/app.js:531-551 | The answer is '刚刚' exactly when fewer than 60 seconds have passed, which includes negative elapsed time. |
| Client.FormatTimeAgo | frontend/js/app.js:531-551 | The loop with its early return computes `TimeAgo` of floor(elapsed ms / 1000). |
| Client.TimeAgoCountsLargestUnit | frontend/js/app.js:534-548 | From 60 seconds on, the answer is n plus the largest unit that fits, where n = floor(s/unit) >= 1. |
| Client.TimeAgoExamples | frontend/js/app.js:531-551 | Examples: 59 s and -30 s give '刚刚', 60 s '1分钟前', 7200 s '2小时前', 364 days '12月前'. |
| Client.PositiveTotalHasVotes | frontend/js/app.js:137-139 | A positive total means some option has a vote. |
| Client.Winner | frontend/js/app.js:137-167 | A total of 0 gives no winner. Otherwise the winner is the first option with the strictly greatest count, and maxVotes is that count, which is positive. |
| Client.VoteLabel | frontend/js/app.js:423-430 | Definition of the label table lookup, with '' for any other pair. `ClientServer.LabelIffAllowed` proves that the label is non-empty exactly for the six pairs the server accepts. |
| Client.CheckCommentInput | frontend/js/app.js:433-445 | The input is accepted exactly when the trimmed content is non-empty and at most 500 characters. Otherwise the error is '请输入评论内容' or '评论内容过长'. The page sends the trimmed content and the trimmed nickname, or '匿名用户'. |
| Client.Choose | frontend/js/app.js:216 | Sets the clicked question's choice and leaves the other two unchanged. |
| Client.ClientState.constructor | frontend/js/app.js:13-18 | No choices, not voted, page 1, and the liked set restored from storage. |
| Client.ClientState.UpdateSubmitButton | frontend/js/app.js:242-246 | The button is enabled exactly when all three questions are chosen and hasVoted is false. Nothing else changes. |
| Client.ClientState.ClickOption | frontend/js/app.js:199-219 | After a vote the click changes nothing. Otherwise only the clicked question's choice is set, and the button is updated. |
| Client.ClientState.SubmitVote | frontend/js/app.js:249-298 | Nothing is sent unless all three are chosen. After an accepted submission, the choices reset to null and hasVoted is false. |
| Client.ClientState.LoadComments | frontend/js/app.js:317-353 | On a successful reply, load-more is disabled exactly when page >= pages, and currentPage becomes the page. Otherwise nothing changes. |
| Client.ClientState.LoadMoreComments | frontend/js/app.js:356-358 | Loads currentPage + 1, with the same rule. |
| Client.LikedAfter | frontend/js/app.js:490-494 | After a like reply, the id is in the set exactly when the server reports hasLiked, and no other id changes. |
| Client.ClientState.LikeComment | frontend/js/app.js:480-504 | The liked set gains the id when the server reports hasLiked and loses it when it reports not liked. A failed reply leaves the set unchanged. |
| ClientServer.LabelIffAllowed | frontend/js/app.js:423-430 | The label is non-empty exactly for the six pairs the server accepts. Every other pair gets ''. |
| ClientServer.ClickKeepsChoicesAllowed | frontend/js/app.js:206-216 | Clicking an offered option keeps every choice an allowed pair. |
| ClientServer.SentChoicesAreAccepted | frontend/js/app.js:263 | The three chosen options pass the server's validation, one entry per question. The server stores them exactly when the caller has an address. |
| ClientServer.DefaultNicknameIsTrimmed | frontend/js/app.js:435 | Trimming '匿名用户' leaves it unchanged. |
| ClientServer.CheckedInputIsStoredAsSent | frontend/js/app.js:433-455 | Input the page lets through is stored with exactly the content and nickname sent. It fails, as a 500, only for a nickname over 20 characters or a caller without an address. |
| ClientServer.LongNicknameReachesServerError | frontend/js/app.js:435 | The page does not bound the nickname: a nickname over 20 characters once trimmed is sent as its trim, and the server refuses it. |
| ClientServer.LetterRunIsTrimmed | frontend/js/app.js:435 | Such nicknames exist: 21 letters trim to themselves. |
| ClientServer.LikedSetMirrorsServer | frontend/js/app.js:490-494 | If the page's set mirrors the server's likers before a like, it still does afterwards. Other ids are untouched. |

## Left out

- Persistence is not modelled. MongoDB's `find`, `save`, `deleteMany`,
  `countDocuments` and `findByIdAndDelete` are replaced by sequences in memory.
  Comment ids are consecutive numbers, not ObjectIds, so a malformed id cannot
  cause a cast error.
- The database does not fix the order of comments with equal timestamps.
  `SortNewestFirst` is one stable order and stands for it.
- Socket.IO is not modelled. The broadcast events appear only as output values
  of the store methods. The page's socket listeners, which re-render the page,
  are not modelled.
- The geolocation HTTP call, axios and its 3000 ms timeout are not modelled. The
  lookup is a parameter that returns an abstract answer; only its mapping to
  the location triple is modelled.
- Concurrency is not modelled: the delete-then-insert is not atomic, the saves
  run in parallel under `Promise.all`, and concurrent like toggles can
  interleave. The saves are modelled in entry order, and each request runs
  alone.
- The duplicate-key (11000) reply to a vote submission is not modelled. The
  model proves it unreachable for sequential requests (`SubmitKeepsUniqueIndex`).
- Express wiring is left out, along with helmet, rate limiting, the error
  middleware and static file serving.
- CommentRoutes.List: page, limit and skip are unbounded integers. JavaScript
  doubles and the database's 64-bit bounds on skip and limit are not modelled,
  so a huge page, which the source answers with 500, gets an empty page here.
- `parseInt` is not modelled. Page and limit arrive as optional integers, with
  the unparsable and missing cases both given as absent.
- JavaScript's prototype-chain names (`constructor`, `__proto__` and the like)
  as table keys are not modelled.
- String lengths count characters, where JavaScript counts UTF-16 code units.
- The page's rendering is not modelled: the DOM, the HTML templates,
  `escapeHtml`, the star field (`Math.random`), toasts and the loading
  indicator.
- `localStorage` JSON is not modelled. The saved liked set is a constructor
  parameter.
- Percentages are left out (`toFixed`, floating point), and so is the
  highlight of the winning button.
- The wall clock is not modelled. `now` and the elapsed milliseconds are
  inputs.
- `checkVoteStatus` always sets `hasVoted` to false, so the page never blocks
  voting. The model keeps `hasVoted` as state and does not model that call.
- The submit button's state before the first click comes from the HTML page,
  which is not part of this model. `ClientState.constructor` starts it
  disabled, which agrees with the button rule.
- Client.ClientState.ClickOption: requires the question to be q1, q2 or q3,
  because the page's option buttons carry only those questions.
- VoteRoutes.VoteStore.Submit: requires the entries to name distinct
  questions, because a JSON object cannot repeat a key.
- Client.ClientState.SubmitVote: takes the server's verdict as a boolean. A
  network error counts as not accepted, since both leave the state unchanged.
- `backend/test-connection.js` and `backend/remove-index.js` are not modelled:
  they are one-off database scripts.

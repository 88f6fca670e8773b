# hole-backend-rust core, modelled in Dafny

A model of the core of an anonymous forum ("hole") backend. Users publish
posts and comment on them. They follow posts ("attention"), react up or down,
vote in polls, report posts and, as admins, delete and ban. Every author
appears only as a name hash. Within one thread each speaker is shown as a
number: the post's author is 0, and later speakers are numbered in order of
first appearance.

The model covers these parts of the backend:

- **Redis caches**:
  - the per-post object cache;
  - the ranked post lists, one sorted set per room and order mode, with a
    length watermark;
  - the per-reader "block dict" memo.
- **Small Redis stores**:
  - the bounded system log;
  - bans, blocks and the block counter;
  - custom titles;
  - automatic block ranks;
  - attention sets;
  - poll voter sets.
- **Permissions**: the permission check and soft delete shared by posts and
  comments.
- **Output projections**: how a post and its comments are shown to a reader.
- **Handlers**: the request handlers that change a post's counters (publish,
  comment, delete, report, attention, reaction, vote).
- **Listing**: the database listing that pages the timeline.

Each Redis key is a value, and each command is a function from the old value
to the new value and its reply. The handlers are functions from the forum's
state, meaning the database rows plus the Redis keys they touch, to the state
afterwards and the reply.

Errors are values of one type:
- `Pc(...)`: a policy refusal.
- `Db`: a missing row.
- `Form`: the request guard rejected the input.
- `Panic`: the Rust code panics, for example on an unknown order mode, a
  `u32` overflow or an out-of-range string slice.

A handler that fails halfway keeps the writes made before the failure, as the
code does, since it uses no transactions.

Modules, one file each:

| file | module | what it holds |
|---|---|---|
| `wrappers.dfy` | `Wrappers` | `Option` and `Result` |
| `entities.dfy` | `Entities` | posts, comments, the current user, the errors |
| `decimal.dfy` | `Decimal` | decimal text of integers, as used in keys; injectivity |
| `lexorder.dfy` | `LexOrder` | byte-wise string order (Redis's tie-break) |
| `sortedset.dfy` | `SortedSet` | a Redis sorted set: `ZADD`, `ZREM`, `ZCARD`, `ZRANGE`, `ZREMRANGEBYRANK` |
| `postlist.dfy` | `PostList` | `PostListCache` |
| `postcache.dfy` | `PostCache` | `PostCache` and `clear_all` |
| `stores.dfy` | `Stores` | system log, bans, attention, poll votes, titles, block counter, block ranks |
| `blocking.dfy` | `Blocking` | `check_if_block`, `BlockDictCache::get_or_create` |
| `permission.dfy` | `Permission` | `check_permission`, `soft_delete` |
| `poll.dfy` | `Poll` | `get_poll_dict`, `vote` |
| `output.dfy` | `Output` | `c2output`, `p2output`, `get_comment` |
| `handlers.dfy` | `Handlers` | `publish_post`, `add_comment`, `delete`, `report`, `attention_post`, `reaction` |
| `listing.dfy` | `Listing` | `get_list`'s page arithmetic, `Post::gets_by_page` |

## Model

| member | source | states |
|---|---|---|
| PostCache.PostKeyInjective | src/cache.rs:23-27 | Two different post ids never share a cache key. |
| PostCache.Sets | src/cache.rs:38-50 | An empty batch writes nothing. An unreachable server keeps its keys, because the MSET error is only logged. Otherwise the keys afterwards are the old keys plus one per post in the batch. |
| PostCache.Get | src/cache.rs:52-69 | A post is returned exactly when the server answers, the key exists and the value decodes as a post; the value returned is the one stored. |
| PostCache.Gets | src/cache.rs:71-106 | One answer per id asked. A single id is answered as `get` would answer it. An unreachable server answers "not cached" for every id. |
| PostCache.GetsPositional | src/cache.rs:71-106 | Each position of a `gets` reply is what a `get` of that id returns. |
| PostCache.SetsThenGet | src/cache.rs:38-69 | After `sets`, `get` of an id in the batch returns the last post in the batch with that id. |
| PostCache.SetsKeepsOthers | src/cache.rs:38-69 | `sets` leaves the cached value of every id outside the batch as it was. |
| PostCache.SetsThenGets | src/cache.rs:38-106 | Round trip: `gets` of the ids of a batch of distinct posts just written returns the batch. |
| PostCache.ClearAll | src/rds_models.rs:78-96 | After `clear_all(pattern)` a key remains exactly when it existed and does not match the pattern; kept keys keep their values. |
| PostCache.ClearAllAsWrittenKeepsPosts | src/cache.rs:36 | Clearing with the pattern as written leaves every cached post readable. |
| PostCache.ClearAllEvictsPosts | src/cache.rs:23-27 | The pattern spelled as the keys are written matches every post key, and clearing with it evicts every post. |
| SortedSet.ZAdd | src/cache.rs:238-257 | After `ZADD` the member has the given score and every other member keeps its own. |
| SortedSet.ZRem | src/cache.rs:238-257 | After `ZREM` the member is gone and every other member keeps its score. |
| SortedSet.ZCard | src/cache.rs:185-197 | `ZCARD` is the number of distinct members. |
| SortedSet.ZRange | src/cache.rs:259-268 | `ZRANGE` returns entries of the set, in score order, each member once. |
| SortedSet.ZRemRangeByRank | src/cache.rs:185-197 | `ZREMRANGEBYRANK` removes the entries at the normalised ranks and keeps the others in order. |
| SortedSet.CanonicalForm | src/cache.rs:238-257 | Two sorted sets with the same id-to-score view are the same listing. |
| PostList.ListKeyInjective | src/cache.rs:169-183 | Each pair of room (or all rooms) and mode has a key of its own. |
| PostList.SaveIsolated | src/cache.rs:169-183 | Writing one list changes no other (room, mode) list. |
| PostList.Open | src/cache.rs:169-183 | A list is opened with the mode asked for and a recorded length of 0. |
| PostList.Score | src/cache.rs:212-224 | Modes 0, 1, 2 and 4 score by minus the id, the last comment time, the hot score and the attention count; mode 3 by the random draw. Any other mode panics. |
| PostList.SetAndCheckLength | src/cache.rs:185-197 | A list longer than 900 is cut to its 800 lowest-ranked entries and records 200; otherwise it records its cardinality. Afterwards it never exceeds 900. |
| PostList.CutKeepsLowest | src/cache.rs:185-197 | The cut keeps exactly the best-ranked entries: each one kept ranks before each one dropped. |
| PostList.NeedFill | src/cache.rs:199-202 | A refill is asked for exactly when the list has fewer than 200 entries. |
| PostList.Put | src/cache.rs:238-257 | A deleted post, or a reported post outside mode 0, is removed. Any other post is upserted with its `p2pair` score. Only the upsert path panics, on a mode above 4. |
| PostList.PutDeletedLeaves | src/cache.rs:238-257 | After `put`, a deleted post is in no list. |
| PostList.PutReported | src/cache.rs:238-257 | A reported post that is not deleted stays in the mode-0 list and leaves every other list. |
| PostList.PutIdempotent | src/cache.rs:212-257 | A second `put` of a post gives what that `put` alone would give, on any two random draws. In mode 3 each `put` draws afresh, so the post moves to the new draw. In every other mode, putting a post twice changes nothing the second time. |
| PostList.Items | src/cache.rs:226-236 | `fill` builds one (score, id) pair per post, in order. Any post in an unknown mode makes it panic. |
| PostList.Fill | src/cache.rs:226-236 | Panics exactly for an unknown mode and a non-empty batch. Otherwise adds no id from outside the list and the batch, and stays within 900 entries. When everything fits, the list holds exactly the old ids plus the batch's and records its true length. |
| PostList.AddAll | src/cache.rs:226-236 | A multi-pair `ZADD`: the id-to-score view is the old view overridden by the pairs, the last pair for an id winning. |
| PostList.CheckLengthShrinks | src/cache.rs:185-197 | The length check only ever removes ids. |
| PostList.GetPids | src/cache.rs:259-268 | Returns the ids ranked `start` to `start + limit - 1`, clipped to the list, in ascending score order; nothing when `start` is past the end. |
| PostList.GetPidsZeroLimit | src/cache.rs:259-268 | A zero limit from the top returns the whole list, because the stop rank -1 means "last". |
| PostList.Clear | src/cache.rs:270-274 | After `clear` the list has no members. |
| PostList.RankOrder | src/cache.rs:212-224 | In a list scored from the posts, a post with a larger ranking quantity comes first. |
| PostList.NewestFirst | src/cache.rs:259-268 | In mode 0 the ids `get_pids` returns strictly decrease. |
| PostList.PutKeepsScored | src/cache.rs:238-257 | `put` of a post as the table holds it keeps every score equal to the one `p2pair` gives. |
| PostList.CheckLengthKeepsScored | src/cache.rs:185-197 | The length check keeps every remaining score. |
| PostList.FillKeepsScored | src/cache.rs:226-236 | For modes 0, 1, 2 and 4, `fill` with posts as the table holds them never panics. It also keeps every score equal to the negated quantity the mode ranks by. |
| PostList.ZAddKeepsScored | src/cache.rs:226-236 | Upserting a pair scored from the table keeps the whole list scored from it. |
| Stores.CreateLog | src/rds_models.rs:129-137 | The new entry goes to the head of the log. The rest is the old log, cut to its first 1000 entries when it was longer than 1000. |
| Stores.LogStaysBounded | src/rds_models.rs:129-137 | However many entries are logged, the log never holds more than 1001. |
| Stores.CreateTwice | src/rds_models.rs:129-137 | Of two entries logged in turn, the later is at the head and the earlier second. |
| Stores.BanAdd | src/rds_models.rs:153-159 | The banned set afterwards is the old one plus the name. |
| Stores.AttentionAdd | src/rds_models.rs:63-76 | The user's set gains the pid; the reply is 1 exactly when the pid was new; other users are untouched. |
| Stores.AttentionRemove | src/rds_models.rs:63-76 | The user's set loses the pid; other users are untouched. |
| Stores.AttentionRoundTrip | src/rds_models.rs:63-76 | `has` reads back what the last add or remove did, and removing undoes adding a new pid. |
| Stores.VoteAdd | src/rds_models.rs:274-284 | The option's voter set gains the name; every other option of every poll is untouched. |
| Stores.VoteCount | src/rds_models.rs:274-284 | The count is 0 exactly when nobody voted for the option. |
| Stores.VoteAddCounts | src/rds_models.rs:274-284 | Adding a voter twice is adding once; the count grows by one exactly when the voter is new. |
| Stores.SetTitle | src/rds_models.rs:211-224 | A title already present as a field is refused and nothing is written. Otherwise both directions are written, and every other field reads as before. |
| Stores.TitleTakenOnce | src/rds_models.rs:211-224 | After one user takes a title, that user reads it back and every later attempt, by anyone, is refused. |
| Stores.CountIncr | src/rds_models.rs:198-204 | The counter rises by one from its value, a missing field counting as 0; other fields are untouched. |
| Stores.SetRank | src/rds_models.rs:234-244 | The user's rank reads back as set; other users' ranks are untouched. |
| Stores.GetRank | src/rds_models.rs:234-244 | The stored rank, or 4 when none is stored. |
| Blocking.BlockAdd | src/rds_models.rs:182-192 | The user's explicit blocks gain the name; other users and the counter are untouched. |
| Blocking.CheckIfBlock | src/rds_models.rs:182-192 | A name is blocked exactly when the reader (with an id) blocked it explicitly, or its global counter is at least the reader's rank times 5. |
| Blocking.TmpUserCounterOnly | src/rds_models.rs:182-192 | A reader without an id is judged by the counter alone. |
| Blocking.RankZeroBlocksAll | src/rds_models.rs:182-192 | With rank 0 every author is blocked. |
| Blocking.BlockMonotone | src/rds_models.rs:182-204 | Another explicit block or another counter increment never unblocks anybody. |
| Blocking.CountReachesThreshold | src/rds_models.rs:182-204 | The increment that brings the counter to rank times 5 blocks the name. |
| Blocking.Missing | src/cache.rs:333-365 | The hashes looked up are exactly those asked for that the dict lacks. |
| Blocking.GetOrCreate | src/cache.rs:333-365 | The dict afterwards keeps every old answer and adds, for each hash it lacked, the current block decision; it looks up only the missing hashes. |
| Blocking.GetOrCreateIdempotent | src/cache.rs:333-365 | A second call with the same hashes looks nothing up and changes nothing. |
| Blocking.GetOrCreateAgrees | src/cache.rs:333-365 | While the block state does not change, the memo answers every hash asked exactly as `check_if_block` would. |
| Permission.Reported | src/api/mod.rs:271-288 | A comment never counts as reported. |
| Permission.ExtraDeleteCondition | src/api/mod.rs:261-263 | A comment always passes the 'd' test; a post passes it unless it is in room 42. |
| Permission.CheckPermission | src/api/mod.rs:223-240 | Admins always pass. Anyone else passes exactly when every condition the mode names holds. A refusal is one of IsDeleted, IsReported or NotAllowed. |
| Permission.CheckIsConjunction | src/api/mod.rs:223-240 | A mode passes exactly when each of its letters passes alone. |
| Permission.FirstFailureDecides | src/api/mod.rs:223-240 | A refusal names the first failing condition in the order r, o, w, d. |
| Permission.CommentsSkipReportAndRoom | src/api/mod.rs:271-288 | For a comment, a mode passes exactly when the mode without 'o' and 'd' passes. |
| Permission.Without | src/api/mod.rs:223-240 | The mode with one letter removed names every other letter it named. |
| Permission.SoftDelete | src/api/mod.rs:242-247 | Succeeds exactly when the "rwd" check passes, and then marks the item deleted without changing its kind or author; a refusal is the check's error. |
| Permission.SoftDeleteWho | src/api/mod.rs:242-247 | An admin may always delete. Anyone else may delete only their own item that is not yet deleted and, for a post, not in room 42. A second delete by the author is refused. |
| Poll.LastChoice | src/api/vote.rs:8-40 | Nothing exactly when the user voted for none of the options. Otherwise the last option the user voted for. |
| Poll.GetPollDict | src/api/vote.rs:8-40 | Nothing for a post without options. Otherwise every option in order with its vote count, and the reader's choice. |
| Poll.Position | src/api/vote.rs:49-72 | The first index holding the choice, or nothing when it is no option. |
| Poll.Vote | src/api/vote.rs:49-72 | Refused exactly for a temporary user, a post without options, a user who already voted, or a choice that is no option. Otherwise the vote is recorded under the first matching option and the poll is shown as the voter now sees it. |
| Poll.VoteKeepsOneVoteEach | src/api/vote.rs:49-72 | Voting keeps every user at one option per poll. |
| Poll.VoteShowsChoice | src/api/vote.rs:49-72 | After a vote the poll shows the choice, that option has one vote more, and every other count is unchanged. |
| Poll.NoSecondVote | src/api/vote.rs:49-72 | A second vote by the same user on the same poll is refused. |
| Output.Roster | src/api/comment.rs:48-56 | The thread's speakers in order of first appearance begin with the post's author. |
| Output.RosterFacts | src/api/comment.rs:48-56 | The roster lists each speaker of the thread once and nobody else. |
| Output.NameIds | src/api/comment.rs:48-56 | The numbering loop gives each comment its author's place in the roster. |
| Output.NameIdStep | src/api/comment.rs:48-56 | Each loop iteration hands out the roster place and keeps the map a numbering of the roster so far. |
| Output.NameIdsIdentify | src/api/comment.rs:48-56 | Two comments share a number exactly when they share an author, and the post's author is 0. |
| Output.NewSpeakerNext | src/api/comment.rs:48-56 | A name speaking for the first time gets the next unused number. |
| Output.RosterGrows | src/api/comment.rs:48-56 | The roster of a prefix of the thread is a prefix of the thread's roster. |
| Output.IndexStable | src/api/comment.rs:48-56 | A speaker keeps their number as the thread grows. |
| Output.CommentOut | src/api/comment.rs:58-79 | The text is shown only to an admin, to the author, or to a reader with an id who did not block the author. The block count is shown only to admins. `can_del` is the "wd" permission check. |
| Output.Kept | src/api/comment.rs:58-59 | The comments emitted are exactly the ones not deleted, in order. |
| Output.C2Output | src/api/comment.rs:41-90 | One output per comment that is not deleted, in order. Each is numbered by its author's place among all the thread's speakers, deleted comments included. |
| Output.HashList | src/api/post.rs:68-126 | The names looked up for a post: the post's author and every embedded comment's author. |
| Output.P2Output | src/api/post.rs:68-126 | The reader's block dict is extended with the post's names. Comments are embedded only for threads with fewer than 5 comments, and then they are exactly what `c2output` shows for the thread. The text and poll are shown as for comments. With a dict that agrees with the block state, `is_blocked` is the block decision, and a non-admin reader with an id sees another author's text exactly when that author is not blocked. Admin-only fields appear only for admins. The id, room, `is_tmp`, times, `allow_search`, counters, cw and title are projected from the post. |
| Output.OutputFollowsBlocks | src/api/post.rs:68-126 | If the dict agrees with the block state, so does the dict `p2output` ends with. It answers for the post's author and, in a short thread, for every comment's author exactly as the block state does. So a non-admin reader with an id who did not write the post may view it exactly when its author is not blocked. |
| Output.GetComment | src/api/comment.rs:92-113 | A missing post is a database error. A deleted post's comments are refused to everyone. Otherwise the dict is extended by the authors, and the outputs are exactly what `c2output` shows for the thread: one per live comment, in order, numbered by its author's place among all the speakers. The reply also carries the post's attention count, once as `n_attentions` and once as `likenum`, and whether the reader follows the post. |
| Handlers.CountersFrame | src/api/comment.rs:144-161 | A post's counters stay correct when neither it nor anything it counts changes. |
| Handlers.NewPost | src/api/post.rs:188-224 | A new post has its author's hash, one attendant and no comments. It is temporary exactly when the user has no id, defaults to room 0, and carries the title only when asked for, or when the user is an admin or candidate. |
| Handlers.PublishPost | src/api/post.rs:188-224 | The post is stored, the author attends it, and the poll options are stored exactly when there are some. Other users' attention is unchanged, and so is everything else: comments, reactions, titles, the log and the banned users. |
| Handlers.PublishCountersMatch | src/api/post.rs:188-224 | Publishing keeps every post's counters equal to what they count. |
| Handlers.CommentDeltas | src/api/comment.rs:144-151 | A new participant adds 3 to the hot score and joins the attendants. A returning one adds 1 while the thread has fewer than 3 comments per attendant, otherwise 0. |
| Handlers.AddComment | src/api/comment.rs:115-171 | A missing post is a database error with nothing written. Otherwise the comment is stored live under the commenter, who now attends the post. It holds the text as given, the creation time, and the commenter's custom title when `use_title` is set (else the empty title). The post gets one comment more, the new last comment time, the attention and hot-score increments, and nothing else changes. No permission is checked. |
| Handlers.AddCommentCountersMatch | src/api/comment.rs:115-171 | Adding a comment keeps every post's counters equal to what they count. |
| Handlers.CommentAddedCounters | src/api/comment.rs:144-161 | One live comment more, and one attendant more unless the commenter attended, keeps the counters right. |
| Handlers.Look | src/api/mod.rs:290-294 | Panics exactly on a string shorter than 2 characters; otherwise 7 characters with "..." in the middle. Characters stand for bytes, which agree on the hex name hashes it is given. |
| Handlers.AdminTrail | src/api/operation.rs:55-78 | Only an admin removing someone else's content is logged. A "!ban " note also logs a ban above the deletion and bans the author, panicking for an author hash shorter than 2. Nothing else changes. |
| Handlers.Decremented | src/api/operation.rs:27-43 | The post loses one comment and one hot-score point, unless the comment was already deleted and recounting is off; nothing else changes. |
| Handlers.DeleteComment | src/api/operation.rs:27-43 | A missing comment is a database error. A refused check changes nothing. Otherwise the comment is marked deleted, even when its post is then missing, and the post is decremented before the admin trail. |
| Handlers.DeletePost | src/api/operation.rs:44-51 | A missing post is a database error. A refused check changes nothing. Otherwise the post is marked deleted before the admin trail. |
| Handlers.DeleteWith | src/api/operation.rs:21-83 | "cid" deletes a comment and "pid" a post; no row is added or removed. |
| Handlers.DeleteAsWritten | src/api/operation.rs:21-83 | Any other id type is refused. A permitted comment delete marks the comment deleted and takes one from its post's comment count and one from its hot score, even when the comment was already deleted. The post's other fields are unchanged. |
| Handlers.AdminRedeleteMiscounts | src/api/operation.rs:27-37 | An admin deleting an already deleted comment takes one more off the count, which then disagrees with the comments that are left. |
| Handlers.Delete | src/api/operation.rs:21-83 | As written, except that the comment count and the hot score drop by one only when the comment was live. The post's other fields are unchanged. A permitted post delete marks the post deleted and touches no comment. |
| Handlers.CommentDeletedCounters | src/api/operation.rs:27-43 | Marking a comment deleted, and decrementing its post when it was live, keeps every post's counters right. |
| Handlers.DeleteCountersMatch | src/api/operation.rs:21-83 | Deleting keeps every post's counters equal to what they count. |
| Handlers.DeleteTrail | src/api/operation.rs:55-78 | A non-admin's delete leaves the log alone. An admin's "!ban " delete of someone else's post bans the author and logs the ban above the deletion. |
| Handlers.ReportTarget | src/api/operation.rs:102 | The log target names the post, followed by a space. |
| Handlers.ReportTargetMarks | src/api/operation.rs:102 | The target names the comment area exactly when the reason starts with it. |
| Handlers.ReportPost | src/api/operation.rs:91-110 | Temporary users are refused. A missing post is a database error. Otherwise the post is marked reported, whatever the reason, and the report is logged; nothing else changes. |
| Handlers.ReportCountersMatch | src/api/operation.rs:91-110 | Reporting keeps every post's attention, comment and vote counters equal to what they count. |
| Handlers.AttentionPost | src/api/attention.rs:17-48 | A switch other than 0 or 1 is a form error, and temporary users are refused. A missing post is a database error. A post the user may not read is refused with the check's error: IsDeleted for a non-admin on a deleted post. An error changes nothing. On success the user's followed set gains or loses exactly this post, other users' sets are unchanged, and the counter moves by one only when the membership changed. Only that post's counter and the attention store change, and the reply shows the new counter. |
| Handlers.AttentionIdempotent | src/api/attention.rs:17-48 | Repeating a switch changes nothing the second time. |
| Handlers.AttentionCountersMatch | src/api/attention.rs:17-48 | Attention keeps every post's counters equal to what they count. |
| Handlers.React | src/api/reaction.rs:15-65 | Status 1 joins up and leaves down, -1 the reverse, 0 leaves both. The deltas are the changes in the sets' sizes, and nobody ends up in both sets. |
| Handlers.Reacted | src/api/reaction.rs:15-65 | The reaction sets are written, and the post's vote counters move by the deltas. The reply shows the new counters. |
| Handlers.Reaction | src/api/reaction.rs:15-65 | A status other than -1, 0 or 1 is a form error, and temporary users get YouAreTmp. A missing post is a database error. A post the user may not read is refused with the check's error: IsDeleted for a non-admin on a deleted post. A failure writes nothing. Success implies the 'r' check passed, and the reply shows the post's counters. |
| Handlers.ReactionCountersMatch | src/api/reaction.rs:15-65 | A reaction keeps every post's vote counters equal to the sizes of its reaction sets. |
| Handlers.ReactTwice | src/api/reaction.rs:15-65 | The same status given twice moves nothing the second time. |
| Handlers.ReactionIdempotent | src/api/reaction.rs:15-65 | Reacting twice the same way changes nothing the second time. |
| Listing.Offset | src/models.rs:51-76 | `(page - 1) * page_size` in `u32`: page 0 and an overflow panic. |
| Listing.ListStart | src/api/post.rs:151-163 | Temporary users get YouAreTmp. A missing page is the first page. The start is a multiple of 25 and is defined exactly for pages 1 to `u32::MAX / 25 + 1`. |
| Listing.ListStartStep | src/api/post.rs:151-163 | Page n + 1 starts 25 posts after page n. |
| Listing.Filter | src/models.rs:58-63 | A post is kept, as often as it occurs, exactly when it is listed: admins see everything; others never see a deleted post, nor a reported one outside mode 0. |
| Listing.AdminFiltersNothing | src/models.rs:58-63 | An admin's listing keeps every post. |
| Listing.CacheRemovesUnlisted | src/models.rs:58-63 | A post leaves a cached list exactly when a non-admin listing in that mode hides it. |
| Listing.CacheScoresAsListing | src/models.rs:65-70 | In modes 0, 1 and 2 the cache scores a post by the key the listing sorts it by. In mode 4 they differ. |
| Listing.StepSortedIsSorted | src/models.rs:65-70 | A sequence whose neighbours are in order is in order. |
| Listing.Insert | src/models.rs:65-70 | Inserting into an ordered sequence keeps it ordered and adds exactly the one post. |
| Listing.Sort | src/models.rs:65-70 | The result is a permutation of the input, ordered by the mode's key. |
| Listing.Window | src/models.rs:71-74 | OFFSET/LIMIT: the posts from the offset on, at most `limit` of them. |
| Listing.PagesArePrefix | src/models.rs:71-74 | The first n pages read in turn are the first n times page_size posts. |
| Listing.GetsByPage | src/models.rs:51-76 | Panics exactly when the offset does; otherwise the page of the filtered, ordered posts. |
| Listing.PageContents | src/models.rs:51-76 | A page holds at most page_size posts, each a listed post of the table, in the mode's order. |
| Listing.NonAdminHidesRemoved | src/models.rs:58-63 | Non-admins never see a deleted post, nor a reported one outside mode 0. |
| Listing.AdminPagesHoldAll | src/models.rs:51-76 | When every page is cut from one order, an admin's pages read through hold every post as often as the table does. This needs pairwise-distinct keys, as ids always are, and not the random mode 3. |
| Listing.RandomPagesMayRepeat | src/models.rs:66-72 | In mode 3 each page's query draws its own order. With two posts one per page, page 1 and page 2 can both show the same post, and the other is never shown. |
| Listing.NewestFirst | src/models.rs:65-70 | In the default order a page runs from the highest id down. |

## Left out

- Expiry times (`EXPIRE`, the `*_EXPIRE_TIME` constants) are not modelled, because there is no clock in the model. A key never expires.
- JSON encoding is treated as a foreign library. A cached value either decodes to the post written or is `Garbage`.
- Concurrency between requests is not modelled, and neither are Redis failures other than the post cache's unreachable server (`PostCache.Store.up`). Elsewhere a Redis error would be returned as an error; the model assumes the commands succeed.
- `refresh_cache`, `clear_comments_cache`, `get_comments`, the comment cache, the user cache and the hot-score annealing are not part of this model, because their bodies are not among the source files modelled. The handlers leave the caches alone.
- `get_list`'s read path through the ranked cache (cache first, then database) is not modelled, for the same reason. `Listing.ListStart` covers its page arithmetic and `Listing.GetsByPage` the database listing.
- `edit_cw`, `get_one`, `get_attention`, search and upload are not modelled. They are not among the core operations.
- The length limits of the input forms (text, cw, reason) are not modelled. A request they reject never reaches the handler.
- Handlers.AttentionPost: the 32-bit counters are unbounded integers, so an `i32` overflow of `n_attentions`, `n_comments` or the vote counters is not modelled.
- Listing.Offset: the release build's wrap-around is not modelled. The model panics on page 0 and on overflow, as a debug build does.
- Mode 3's random order is a parameter: `rnd` for the cache's `gen_range` draw, and `rand` for the database's `RANDOM()`.
- Listing.AdminPagesHoldAll: paging through a listing is not promised to show every post once in the random mode 3, nor in modes 1 and 2 when keys tie. Each page is a separate query: `ORDER BY RANDOM()` draws anew for each one (`Listing.RandomPagesMayRepeat` shows a post repeated), and SQL fixes no order among equal keys.
- Redis keeps sorted-set scores as IEEE doubles, and the model keeps them as exact integers. Ids, timestamps and the `i32` counters of modes 0, 1, 2 and 4 are below 2^53 and so exact. Mode 3's draws go up to `i64::MAX`, so distinct draws above 2^53 can round to one score and then order by member. That rounding is not modelled.
- Handlers.Look: the model cuts characters where `look!` cuts bytes. A string whose second or second-to-last byte boundary splits a multi-byte character would panic in the source but not in the model. Name hashes are hex strings, where the two agree.
- The mode-4 ranking differs between the database listing (by id) and the cache (by attention count). Both are modelled as written, and `Listing.CacheScoresAsListing` states the difference.
- `PostCache.ClearAll`: the `clear_all!` macro's body is not among the source files. It is modelled as `Attention::clear_all` works: scan for the pattern and delete each match.
- The Redis struct behind the reaction sets is not among the source files. The up and down sets are modelled from the reaction handler's use of them.
- A new comment's `allow_search` is false, and a new post's other columns take the database defaults (no votes, score 0, not deleted, not reported).
- SortedSet.ZRange: states that the result is a valid listing drawn from the set; `PostList.GetPids` states the exact window of ranks.

## Findings

| source | as written | input that shows it | evidently intended | confidence | as-written member | corrected member |
|---|---|---|---|---|---|---|
| src/cache.rs:36 | `PostCache` clears keys matching "hole_v2:cache::post:*:v2", which has a doubled colon | any cached post, e.g. id 1 with key "hole_v2:cache:post:1:v2": the pattern matches no such key, so clearing leaves it readable | the pattern "hole_v2:cache:post:*:v2", matching the keys `post_cache_key!` writes | high for the mismatch, medium that clearing was meant to evict posts; not executed | PostCache.ClearAllAsWrittenKeepsPosts | PostCache.ClearAllEvictsPosts |
| src/api/operation.rs:27-37 | `delete` with id type "cid" decrements the post's `n_comments` and `hot_score` whenever the soft delete passes. An admin passes even when the comment is already deleted | an admin deletes comment c twice: the second call lowers `n_comments` again, below the number of live comments | decrement only when the comment was live | medium; not executed | Handlers.AdminRedeleteMiscounts | Handlers.DeleteCountersMatch |

# Forum API core, modelled in Dafny

This project models the core of a forum backend written in JavaScript. Users post threads, comment on threads, reply to comments and like comments.

It covers four layers:

- **Entity validators.** `CommentDetail`, `ThreadDetail` and `AddReply` check a payload with JavaScript truthiness and `typeof`. Presence is checked first, then type.
- **Error translator.** `DomainErrorTranslator` maps an error code to the `InvariantError` shown to clients.
- **Repositories.** The four PostgreSQL repositories for threads, comments, replies and likes are modelled as operations on tables of rows.
- **Use cases.** These build the thread detail, and run the existence and ownership checks that guard the writes that have them. Adding a thread has none: it checks only its parameters, or nothing at all.

JavaScript values are a datatype (`JsValues.JsValue`). Request payloads and fetched rows are maps from property names to values, so a missing property reads as `undefined`.

Each repository is a class whose field is its table, as a `seq` of rows. Every repository of one store appends each call it receives to a shared `Journal`. The use cases' contracts therefore state which calls were made, in which order, and which were never made.

The order of checks in a use case is a `Chain`: a list of steps, each a call with its outcome. Running a chain stops at the first failing step. The lemmas in `Chain` state what a run returns and which calls it makes. Some use cases guard a write with two or more checks: deleting a comment or a reply, toggling or liking a comment, and adding a reply. They state those checks as such a chain, and prove that their calls are the chain's calls followed by the write only when the chain passes.
- The deletes and the toggle write exactly when the chain passes.
- LikeUseCase reads the like between the chain and its write.
- The add-reply use cases also skip the write when the reply entity is rejected.

The add-thread and add-comment use cases, which make at most one check, and the two thread-detail use cases list their calls directly. The add use cases write exactly when their check passes and the entity is accepted.

Ids are the prefix (`thread-`, `comment-`, `reply-`, `like-`) followed by the id generator's output, which is a parameter (`idSuffix`). Timestamps (`now`) are parameters too. An insert under an id that is already taken fails as the primary key makes it fail, with a database error.

## Model

| member | source | states |
|---|---|---|
| JsValues.FalsyValues | src/Domains/comments/entities/CommentDetail.js:30-32 | the falsy values are exactly undefined, null, false, 0 and the empty string |
| CommentDetailEntity.New | src/Domains/comments/entities/CommentDetail.js:2-44 | a payload is accepted exactly when it passes both checks; a missing field gives NOT_CONTAIN_NEEDED_PROPERTY; otherwise a type failure gives NOT_MEET_DATA_TYPE_SPECIFICATION; on success every field equals the payload's, and id, username, date and content are non-empty |
| CommentDetailEntity.AsValue | src/Domains/comments/entities/CommentDetail.js:2-20 | a constructed detail is an instance of CommentDetail |
| CommentDetailEntity.NewAll | src/Domains/comments/entities/CommentDetail.js:2-44 | building a list of details succeeds exactly when every payload is accepted, giving one detail per payload in order; otherwise it reports the error of the first payload that fails |
| CommentDetailEntity.NewOfFields | src/Domains/comments/entities/CommentDetail.js:14-19 | a detail rebuilt from its own fields is the same detail: the constructor loses nothing |
| CommentDetailEntity.ZeroLikeCountAccepted | src/Domains/comments/entities/CommentDetail.js:30 | a like count of 0 is accepted, because the like count is not part of the presence check |
| CommentDetailEntity.EmptyContentIsMissing | src/Domains/comments/entities/CommentDetail.js:30-32 | empty content is rejected as missing, whatever the other fields are |
| CommentDetailEntity.PresenceBeforeType | src/Domains/comments/entities/CommentDetail.js:30-43 | a payload that is both incomplete and mistyped reports the missing property |
| ThreadDetailEntity.New | src/Domains/threads/entities/ThreadDetail.js:4-45 | a payload is accepted exactly when its five fields are present and strings, `comments` is an array and every element is a CommentDetail; a missing field gives NOT_CONTAIN_NEEDED_PROPERTY and every other failure NOT_MEET_DATA_TYPE_SPECIFICATION; on success the six fields are the payload's |
| ThreadDetailEntity.NewOfFields | src/Domains/threads/entities/ThreadDetail.js:11-16 | a detail rebuilt from its own fields is the same detail |
| ThreadDetailEntity.MissingCommentsIsTypeFailure | src/Domains/threads/entities/ThreadDetail.js:23-36 | a missing `comments` fails the type check, not the presence check |
| ThreadDetailEntity.EmptyCommentsAccepted | src/Domains/threads/entities/ThreadDetail.js:38-44 | an empty comment list is accepted and kept empty |
| ThreadDetailEntity.NonCommentDetailElementRejected | src/Domains/threads/entities/ThreadDetail.js:38-44 | one element that is not a CommentDetail instance fails the whole detail with NOT_MEET_DATA_TYPE_SPECIFICATION |
| AddReplyEntity.New | src/Domains/replies/entities/AddReply.js:2-20 | a payload is accepted exactly when content, owner and comment are present strings; a missing one gives ADD_REPLY.NOT_CONTAIN_NEEDED_PROPERTY, then a non-string gives ADD_REPLY.NOT_MEET_DATA_TYPE_SPECIFICATION; on success the three fields are the payload's and are non-empty |
| AddReplyEntity.NewOfFields | src/Domains/replies/entities/AddReply.js:5-9 | an entity rebuilt from its own fields is the same entity |
| AddReplyEntity.ContentOnlyRejected | src/Domains/replies/entities/AddReply.js:13-15 | a payload that holds only `content` is rejected as missing properties |
| DomainErrorTranslator.Translate | src/Commons/exceptions/DomainErrorTranslator.js:4-6 | an error comes back unchanged exactly when its message is not one of the directory's own keys; otherwise it becomes an InvariantError whose message is one of the directory's messages and is not itself a key |
| DomainErrorTranslator.TranslationDependsOnMessage | src/Commons/exceptions/DomainErrorTranslator.js:5 | for directory codes, two errors with the same message translate alike, whatever their class |
| DomainErrorTranslator.AddCommentMissingPropertyMessage | src/Commons/exceptions/DomainErrorTranslator.js:30 | ADD_COMMENT.NOT_CONTAIN_NEEDED_PROPERTY reaches the client as "tidak dapat membuat comment baru karena properti yang dibutuhkan tidak ada" |
| DomainErrorTranslator.RefreshCodesShareMessage | src/Commons/exceptions/DomainErrorTranslator.js:16-18 | both refresh-token codes are in the directory and map to the same message |
| DomainErrorTranslator.NotInjective | src/Commons/exceptions/DomainErrorTranslator.js:9-44 | two different codes of the directory map to the same message |
| DomainErrorTranslator.DirectoriesWellFormed | src/Commons/exceptions/DomainErrorTranslator.js:9-44 | every key of the directory ends in an upper-case letter and every message in a lower-case one, so no message is also a key |
| DomainErrorTranslator.MessagesAreNotCodes | src/Commons/exceptions/DomainErrorTranslator.js:9-44 | no mapped message is itself a key of the directory |
| DomainErrorTranslator.TranslateIdempotent | src/Commons/exceptions/DomainErrorTranslator.js:4-6 | translating twice gives the same error as translating once |
| DomainErrorTranslator.UseCaseParameterCodesPassThrough | src/Applications/use_case/CommentUseCase.js:10-16 | the parameter-check codes the use cases throw are not in the directory, so they reach the client untranslated |
| UseCaseParameters.CheckParameters | src/Applications/use_case/CommentUseCase.js:10-16 | the parameters pass exactly when each is a non-empty string; any falsy parameter gives NOT_CONTAIN_NEEDED_PARAMETER; otherwise a non-string gives PARAMETER_NOT_MEET_DATA_TYPE_SPECIFICATION |
| Entities.ReplyDetail | src/Applications/use_case/GetThreadDetailUseCase.js:37-42 | a reply detail is a ReplyDetail instance holding the payload's id and content |
| Chain.RunPasses | src/Applications/use_case/DeleteReplyUseCase.js:12-16 | a chain of awaited checks passes exactly when every check passes, and then every call was made |
| Chain.RunStopsAtFirstFailure | src/Applications/use_case/DeleteReplyUseCase.js:12-16 | a failing chain reports the error of its first failing check, and no call after that check is made |
| Chain.PassedPrefix | src/Applications/use_case/DeleteReplyUseCase.js:12-16 | checks that pass hand the chain on to the rest, with their own calls made |
| Chain.AllCallsAt | src/Applications/use_case/DeleteReplyUseCase.js:12-16 | a chain's calls are its steps' calls, one per step, in order |
| Chain.CallsMadeAreReads | src/Applications/use_case/DeleteReplyUseCase.js:12-15 | a chain of read-only checks writes nothing, however far it runs |
| Chain.GuardedWrites | src/Applications/use_case/DeleteReplyUseCase.js:12-16 | checks guarding a write make the write's changes when they pass and no change otherwise |
| ThreadRepository.FindThread | src/Infrastructures/repository/ThreadRepositoryPostgres.js:39-57 | a found row has the requested id and comes from a stored thread; nothing is found exactly when no stored thread with that id has an owner among the users |
| ThreadRepository.InsertedThreadIsFound | src/Infrastructures/repository/ThreadRepositoryPostgres.js:12-57 | a thread inserted under a fresh id is the row read back by that id, joined with its owner's username |
| ThreadRepository.InsertKeepsOtherThreads | src/Infrastructures/repository/ThreadRepositoryPostgres.js:12-57 | inserting a thread changes neither the lookup nor the existence check for any other id |
| ThreadRepository.ThreadRepositoryPostgres.AddThread | src/Infrastructures/repository/ThreadRepositoryPostgres.js:12-24 | under a fresh `thread-` id, one row is appended and the result carries that id with the input's owner and title; a taken id is a database error and changes nothing |
| ThreadRepository.ThreadRepositoryPostgres.VerifyAvailableThread | src/Infrastructures/repository/ThreadRepositoryPostgres.js:26-37 | fails with NotFoundError("Thread not found") exactly when no thread has the id; the table is unchanged |
| ThreadRepository.ThreadRepositoryPostgres.VerifyThreadAvailability | src/Applications/use_case/ThreadUseCase.js:42 | the same check, under the name the newer use cases call |
| ThreadRepository.ThreadRepositoryPostgres.GetThreadById | src/Infrastructures/repository/ThreadRepositoryPostgres.js:39-57 | returns the joined row for the id, or nothing; the table is unchanged |
| CommentRepository.FirstComment | src/Infrastructures/repository/CommentRepositoryPostgres.js:60-66 | the first row read has the requested id and is stored; there is none exactly when no comment has the id |
| CommentRepository.FirstCommentIsTheRow | src/Infrastructures/repository/CommentRepositoryPostgres.js:60-66 | under the primary key, the row read for an id is the stored comment with that id |
| CommentRepository.OwnerCheckAgainstStoredOwner | src/Infrastructures/repository/CommentRepositoryPostgres.js:60-70 | for a stored comment, the owner check fails exactly for a caller other than its owner, with the AuthorizationError |
| CommentRepository.CommentsOfThread | src/Infrastructures/repository/CommentRepositoryPostgres.js:35-44 | every row returned is a stored comment of the requested thread, shaped as the query shapes it |
| CommentRepository.CommentsOfThreadComplete | src/Infrastructures/repository/CommentRepositoryPostgres.js:35-44 | every stored comment of the thread is among the rows returned |
| CommentRepository.MarkDeletedChangesOnlyMarker | src/Infrastructures/repository/CommentRepositoryPostgres.js:46-58 | the soft delete sets `deleted_at` on the rows with that id and changes no other column and no other row |
| CommentRepository.MarkDeletedAbsentIsNoOp | src/Infrastructures/repository/CommentRepositoryPostgres.js:46-58 | deleting an id that no comment has changes nothing |
| CommentRepository.MarkDeletedKeepsChecks | src/Infrastructures/repository/CommentRepositoryPostgres.js:46-58 | a soft-deleted comment still exists, in the same thread, for every later check |
| CommentRepository.CommentRepositoryPostgres.AddComment | src/Infrastructures/repository/CommentRepositoryPostgres.js:13-33 | under a fresh `comment-` id, one row with no deletion marker is appended and the result carries that id, the content and the owner; a taken id is a database error and changes nothing |
| CommentRepository.CommentRepositoryPostgres.GetCommentsByThreadId | src/Infrastructures/repository/CommentRepositoryPostgres.js:35-44 | returns exactly the thread's comments, in some order, and changes nothing |
| CommentRepository.CommentRepositoryPostgres.DeleteCommentById | src/Infrastructures/repository/CommentRepositoryPostgres.js:46-58 | the table becomes the soft-deleted table |
| CommentRepository.CommentRepositoryPostgres.VerifyCommentOwner | src/Infrastructures/repository/CommentRepositoryPostgres.js:60-70 | the outcome is the owner check on the first row with the id, and a crash when there is none |
| CommentRepository.CommentRepositoryPostgres.VerifyCommentAvailability | src/Infrastructures/repository/CommentRepositoryPostgres.js:72-82 | fails with NotFoundError("comment tidak ditemukan") exactly when no comment, in any thread, has the id |
| CommentRepository.CommentRepositoryPostgres.VerifyAvailableComment | src/Domains/comments/CommentRepository.js:6-8 | fails with NotFoundError exactly when no comment with that id belongs to that thread |
| ReplyRepository.FirstReply | src/Infrastructures/repository/ReplyRepositoryPostgres.js:59-66 | the first row read has the requested id and is stored; there is none exactly when no reply has the id |
| ReplyRepository.FirstReplyIsTheRow | src/Infrastructures/repository/ReplyRepositoryPostgres.js:59-66 | under the primary key, the row read for an id is the stored reply with that id |
| ReplyRepository.OwnerCheckAgainstStoredOwner | src/Infrastructures/repository/ReplyRepositoryPostgres.js:59-70 | for a stored reply, the owner check fails exactly for a caller other than its owner, with the AuthorizationError |
| ReplyRepository.RepliesFor | src/Infrastructures/repository/ReplyRepositoryPostgres.js:35-43 | every row returned is a stored reply to one of the listed comments, by a known user |
| ReplyRepository.RepliesForComplete | src/Infrastructures/repository/ReplyRepositoryPostgres.js:35-43 | every stored reply to a listed comment by a known user is among the rows |
| ReplyRepository.InsertByDateSorted | src/Infrastructures/repository/ReplyRepositoryPostgres.js:37 | placing a row into a list ascending by date keeps it ascending |
| ReplyRepository.SortByDateCorrect | src/Infrastructures/repository/ReplyRepositoryPostgres.js:37 | ordering by creation time keeps the same rows and puts them in ascending date order |
| ReplyRepository.MarkDeletedChangesOnlyMarker | src/Infrastructures/repository/ReplyRepositoryPostgres.js:45-57 | the soft delete sets `deleted_at` on the rows with that id and changes no other column and no other row |
| ReplyRepository.MarkDeletedAbsentIsNoOp | src/Infrastructures/repository/ReplyRepositoryPostgres.js:45-57 | deleting an id that no reply has changes nothing |
| ReplyRepository.ReplyRepositoryPostgres.AddReply | src/Infrastructures/repository/ReplyRepositoryPostgres.js:13-33 | under a fresh `reply-` id, one row with no deletion marker is appended and the result carries that id, the content and the owner; a taken id is a database error and changes nothing |
| ReplyRepository.ReplyRepositoryPostgres.GetRepliesByCommentIds | src/Infrastructures/repository/ReplyRepositoryPostgres.js:35-43 | returns exactly the replies to the listed comments, ascending by creation time, and changes nothing |
| ReplyRepository.ReplyRepositoryPostgres.GetRepliesByCommentId | src/Applications/use_case/GetThreadDetailUseCase.js:33 | returns the replies to one comment, in table order, and changes nothing |
| ReplyRepository.ReplyRepositoryPostgres.DeleteReplyById | src/Infrastructures/repository/ReplyRepositoryPostgres.js:45-57 | the table becomes the soft-deleted table |
| ReplyRepository.ReplyRepositoryPostgres.VerifyReplyOwner | src/Infrastructures/repository/ReplyRepositoryPostgres.js:59-70 | the outcome is the owner check on the first row with the id, and a crash when there is none |
| ReplyRepository.ReplyRepositoryPostgres.VerifyReplyAvailability | src/Infrastructures/repository/ReplyRepositoryPostgres.js:72-82 | fails with NotFoundError("reply tidak ditemukan") exactly when no reply, under any comment, has the id |
| ReplyRepository.ReplyRepositoryPostgres.VerifyAvailableReply | src/Applications/use_case/DeleteReplyUseCase.js:14 | fails with NotFoundError exactly when no reply with that id answers that comment |
| LikeRepository.WithoutPair | src/Infrastructures/repository/LikeRepositoryPostgres.js:26-36 | every row of the owner and comment goes, every other row stays, and the pair is no longer liked |
| LikeRepository.WithoutPairKeepsUniqueIds | src/Infrastructures/repository/LikeRepositoryPostgres.js:26-36 | deleting rows keeps the primary key |
| LikeRepository.LikesFor | src/Infrastructures/repository/LikeRepositoryPostgres.js:51-59 | every row returned is the `{id, commentId}` of a stored like whose comment is listed, and there are no more rows than likes |
| LikeRepository.LikesForComplete | src/Infrastructures/repository/LikeRepositoryPostgres.js:51-59 | every stored like of a listed comment is among the rows returned |
| LikeRepository.CountLikes | src/Applications/use_case/GetThreadDetailUseCase.js:63 | a comment's like count is at most the number of likes, and is zero exactly when no like is for that comment |
| LikeRepository.ToggledFlipsLike | src/Applications/use_case/ToggleLikeUseCase.js:14 | a toggle that does not hit a taken id flips whether the caller likes the comment |
| LikeRepository.ToggledKeepsOtherPairs | src/Applications/use_case/ToggleLikeUseCase.js:14 | a toggle leaves every other owner and comment pair as it was |
| LikeRepository.TwoTogglesUnlike | src/Applications/use_case/ToggleLikeUseCase.js:14 | starting from not liked, one toggle likes the comment and a second unlikes it |
| LikeRepository.AddedLikeIsLiked | src/Infrastructures/repository/LikeRepositoryPostgres.js:10-49 | after a like is added the pair is liked; adding a like for a pair already liked stores a second row for it |
| LikeRepository.LikeRepositoryPostgres.AddLike | src/Infrastructures/repository/LikeRepositoryPostgres.js:10-24 | under a fresh `like-` id, one row for the pair is appended, with no check for an existing like; a taken id is a database error and changes nothing |
| LikeRepository.LikeRepositoryPostgres.DeleteLike | src/Infrastructures/repository/LikeRepositoryPostgres.js:26-36 | the table loses exactly the pair's rows |
| LikeRepository.LikeRepositoryPostgres.VerifyLikeAvailability | src/Infrastructures/repository/LikeRepositoryPostgres.js:38-49 | true exactly when some row records the owner liking the comment; the table is unchanged |
| LikeRepository.LikeRepositoryPostgres.GetLikesByCommentIds | src/Infrastructures/repository/LikeRepositoryPostgres.js:51-59 | returns the `{id, commentId}` rows of the likes of the listed comments (LikesFor, complete by LikesForComplete), in some order, logs one query and changes no table |
| LikeRepository.LikeRepositoryPostgres.CountCommentLikes | src/Applications/use_case/GetThreadDetailUseCase.js:63 | returns the number of likes of the comment and changes nothing |
| LikeRepository.LikeRepositoryPostgres.ToggleCommentLike | src/Applications/use_case/ToggleLikeUseCase.js:14 | a liked comment is unliked and an unliked one liked; the only failure is a taken id on the insert, which changes nothing |
| ThreadUseCase.RepliesTo | src/Applications/use_case/ThreadUseCase.js:54 | a comment's replies are exactly the fetched replies whose `commentId` is strictly equal to its id, each as often as fetched |
| ThreadUseCase.RepliesToAppend | src/Applications/use_case/ThreadUseCase.js:54 | the filter works row by row: filtering two runs of rows gives the two filtered runs in the same order, so the relative order of the kept replies is the fetched order |
| ThreadUseCase.RepliesToKeepsDateOrder | src/Applications/use_case/ThreadUseCase.js:47-54 | ascending dates survive the filter, so each comment's replies stay ascending by date |
| ThreadUseCase.ReplyMaskedByDeletedAt | src/Applications/use_case/ThreadUseCase.js:54-59 | a reply's content is the deleted-reply placeholder exactly when its `deletedAt` is truthy and its stored content otherwise; its id is kept |
| ThreadUseCase.LikesOf | src/Applications/use_case/ThreadUseCase.js:60 | a comment's likes are at most all the likes, and none exactly when no fetched like is for that comment |
| ThreadUseCase.LikesOfMatching | src/Applications/use_case/ThreadUseCase.js:60 | a comment's likes are exactly the fetched likes whose `commentId` is strictly equal to its id, each as often as fetched |
| ThreadUseCase.FetchedLikeCountIsStoredCount | src/Applications/use_case/ThreadUseCase.js:48-60 | for a listed comment, counting its likes among the fetched rows gives the number of its rows in the likes table |
| ThreadUseCase.FetchedLikeCountInAnyOrder | src/Applications/use_case/ThreadUseCase.js:48-60 | whatever order the likes query returns its rows in, a listed comment's `likeCount` is the number of its rows in the likes table |
| ThreadUseCase.CommentViewContents | src/Applications/use_case/ThreadUseCase.js:50-62 | a comment's detail keeps its id, username and date; its content is the placeholder exactly when `deletedAt` is truthy and the stored content otherwise; its replies are the masked replies to it; its like count is the number of its likes |
| ThreadUseCase.BuildComments | src/Applications/use_case/ThreadUseCase.js:50-62 | one CommentDetail per fetched comment when every comment's payload is accepted, or the first rejection |
| ThreadUseCase.BuildCommentsPerComment | src/Applications/use_case/ThreadUseCase.js:50-62 | detail i is built from comment i's payload, so count and order are kept |
| ThreadUseCase.AssembleThread | src/Applications/use_case/ThreadUseCase.js:64-67 | the detail's comments are the built comments, and its id, title, body, date and username are those of the fetched thread row |
| ThreadUseCase.BuiltCommentsAreCommentDetails | src/Applications/use_case/ThreadUseCase.js:50-67 | the built comments always pass the thread detail's per-element check |
| ThreadUseCase.NoCommentsGivesEmptyList | src/Applications/use_case/ThreadUseCase.js:50-67 | a valid thread row with no comments yields a detail with an empty comment list |
| ThreadUseCase.UnlikedCommentCountsZero | src/Applications/use_case/ThreadUseCase.js:60 | a comment with no fetched likes has a like count of zero |
| ThreadUseCase.TotalLikeCountBounded | src/Applications/use_case/ThreadUseCase.js:60 | with distinct comment ids, the like counts of all comments add up to at most the number of likes fetched |
| ThreadUseCase.ThreadUseCase.AddThread | src/Applications/use_case/ThreadUseCase.js:19-31 | a falsy or non-string owner id is rejected before any repository call; a rejected entity is reported unchanged; otherwise exactly one insert is made and its result returned |
| ThreadUseCase.ThreadUseCase.GetThread | src/Applications/use_case/ThreadUseCase.js:33-68 | a bad thread id is rejected before any call; a missing thread stops after the availability check; otherwise the five calls are made in order, the reply and like fetches get the comment ids in comment order, and the result is the assembled detail |
| GetThreadDetailUseCase.MaskedByIsDeleted | src/Applications/use_case/GetThreadDetailUseCase.js:55-73 | a comment's content is the placeholder exactly when its `is_deleted` is truthy and its stored content otherwise; its id is the row's, its like count the count given, and its replies start empty |
| GetThreadDetailUseCase.FetchedRowsAreNeverMasked | src/Applications/use_case/GetThreadDetailUseCase.js:68 | rows fetched by the comment repository carry no `is_deleted`, so their content is never masked |
| GetThreadDetailUseCase.DetailsFollowComments | src/Applications/use_case/GetThreadDetailUseCase.js:55-73 | one detail per comment, in order, each with that comment's id and the number of its likes |
| GetThreadDetailUseCase.DetailsCarryTheirReplies | src/Applications/use_case/GetThreadDetailUseCase.js:33-43 | detail i carries the masked replies fetched for comment i's id, in order |
| GetThreadDetailUseCase.AssembledComments | src/Applications/use_case/GetThreadDetailUseCase.js:30-52 | the result's comments are the comment details, each with its own replies |
| GetThreadDetailUseCase.AssembledThreadFields | src/Applications/use_case/GetThreadDetailUseCase.js:26-28 | the result's id, title, body, date and username are the fetched thread row's |
| GetThreadDetailUseCase.NoCommentsGivesEmptyList | src/Applications/use_case/GetThreadDetailUseCase.js:55-73 | a valid thread row with no comments yields a detail with an empty comment list |
| GetThreadDetailUseCase.ReplyMaskedByIsDeleted | src/Applications/use_case/GetThreadDetailUseCase.js:37-42 | a reply's content is the placeholder exactly when its `is_deleted` is truthy, and its stored content otherwise |
| GetThreadDetailUseCase.GetThreadDetailUseCase.MapComments | src/Applications/use_case/GetThreadDetailUseCase.js:55-73 | one like-count call per comment, in order, and the details built with those counts |
| GetThreadDetailUseCase.GetThreadDetailUseCase.FillReplies | src/Applications/use_case/GetThreadDetailUseCase.js:33-43 | one reply fetch per detail, in order, and every detail given its own fetched replies |
| GetThreadDetailUseCase.GetThreadDetailUseCase.Execute | src/Applications/use_case/GetThreadDetailUseCase.js:18-53 | a falsy thread id fails with NOT_CONTAIN_THREAD_ID before any call; a missing thread stops after the availability check; a thread row that cannot be read fails on destructuring; otherwise the result is the assembled detail of the thread's comments |
| AddThreadUseCase.AddThreadUseCase.Execute | src/Applications/use_case/AddThreadUseCase.js:8-18 | with no check before it, exactly one insert is made, owned by the caller, with the payload's title and body, and its result is returned |
| AddCommentUseCase.AddCommentUseCase.Execute | src/Applications/use_case/AddCommentUseCase.js:9-21 | the thread check runs first and its failure means no insert; otherwise exactly one insert is made with the caller as owner, the thread id and the content, and its result is returned |
| CommentUseCase.DeleteAllowedIff | src/Applications/use_case/CommentUseCase.js:33-35 | the delete goes ahead exactly when the caller owns a comment with that id, in any thread |
| CommentUseCase.NonOwnerNeverDeletes | src/Applications/use_case/CommentUseCase.js:34-35 | someone other than a stored comment's owner gets the AuthorizationError, and the delete is never called |
| CommentUseCase.CommentUseCase.AddComment | src/Applications/use_case/CommentUseCase.js:9-22 | bad owner or thread ids are rejected before any call; a missing thread stops before the content is checked; otherwise exactly one insert is made and its result returned |
| CommentUseCase.CommentUseCase.DeleteComment | src/Applications/use_case/CommentUseCase.js:24-36 | a bad comment id is rejected before any call; otherwise availability, then owner, then the soft delete exactly when both pass |
| DeleteCommentUseCase.DeleteAllowedIff | src/Applications/use_case/DeleteCommentUseCase.js:10-13 | the delete goes ahead exactly when the thread exists and the caller owns a comment with that id in it |
| DeleteCommentUseCase.MissingThreadStopsTheChain | src/Applications/use_case/DeleteCommentUseCase.js:10 | a missing thread gives "Thread not found" and no other call is made |
| DeleteCommentUseCase.MissingCommentSkipsOwnerCheck | src/Applications/use_case/DeleteCommentUseCase.js:11 | a comment missing from the thread gives NotFoundError before ownership is looked at |
| DeleteCommentUseCase.NonOwnerIsForbidden | src/Applications/use_case/DeleteCommentUseCase.js:12-13 | someone other than the owner of a comment in the thread gets the AuthorizationError |
| DeleteCommentUseCase.AtMostOneWrite | src/Applications/use_case/DeleteCommentUseCase.js:10-13 | the use case writes once when the checks pass and never otherwise |
| DeleteCommentUseCase.DeleteCommentUseCase.Execute | src/Applications/use_case/DeleteCommentUseCase.js:7-14 | thread, scoped comment and owner checks in order, then the soft delete exactly when all pass; nothing is returned |
| AddReplyUseCase.ReplyBelongsToCallerAndComment | src/Applications/use_case/AddReplyUseCase.js:16-20 | non-empty string content from a signed-in caller makes a reply owned by the caller, under the comment, with that content |
| AddReplyUseCase.MissingContentRejected | src/Applications/use_case/AddReplyUseCase.js:16-20 | missing or empty content is rejected as a missing property |
| AddReplyUseCase.MissingThreadStopsTheChain | src/Applications/use_case/AddReplyUseCase.js:13 | a missing thread gives "Thread not found" before the comment is looked at |
| AddReplyUseCase.ChecksPassIff | src/Applications/use_case/AddReplyUseCase.js:13-14 | the checks pass exactly when the thread exists and the comment is in it |
| AddReplyUseCase.AddReplyUseCase.Execute | src/Applications/use_case/AddReplyUseCase.js:10-21 | thread, then scoped comment; a failure means no insert; the entity is built only after both checks; otherwise exactly one insert by the caller under the comment, and its result is returned |
| DeleteReplyUseCase.DeleteAllowedIff | src/Applications/use_case/DeleteReplyUseCase.js:12-16 | the delete goes ahead exactly when the thread exists, the comment is in it, the reply answers the comment and the caller owns it |
| DeleteReplyUseCase.MissingThreadStopsTheChain | src/Applications/use_case/DeleteReplyUseCase.js:12 | a missing thread gives "Thread not found" and no other call is made |
| DeleteReplyUseCase.MissingCommentStopsTheChain | src/Applications/use_case/DeleteReplyUseCase.js:13 | a missing comment stops the chain before the reply and owner checks |
| DeleteReplyUseCase.MisplacedReplyIsNotFound | src/Applications/use_case/DeleteReplyUseCase.js:14-15 | a reply absent from the comment gives NotFoundError, never the AuthorizationError |
| DeleteReplyUseCase.AtMostOneWrite | src/Applications/use_case/DeleteReplyUseCase.js:12-16 | the use case writes once when the checks pass and never otherwise |
| DeleteReplyUseCase.DeleteReplyUseCase.Execute | src/Applications/use_case/DeleteReplyUseCase.js:8-17 | four checks in order, then the soft delete exactly when all pass; nothing is returned |
| ReplyUseCase.AddChecksPassIff | src/Applications/use_case/ReplyUseCase.js:19-20 | the checks pass exactly when the thread exists and some comment, in any thread, has the id |
| ReplyUseCase.DeleteAllowedIff | src/Applications/use_case/ReplyUseCase.js:35-37 | the delete goes ahead exactly when the caller owns a reply with that id |
| ReplyUseCase.NonOwnerNeverDeletes | src/Applications/use_case/ReplyUseCase.js:35-37 | someone other than a stored reply's owner gets the AuthorizationError, and the delete is never called |
| ReplyUseCase.ReplyUseCase.AddReply | src/Applications/use_case/ReplyUseCase.js:10-24 | bad owner or comment ids are rejected before any call; the thread is not validated; thread, then comment; then the entity is built from the payload alone and exactly one insert is made |
| ReplyUseCase.ReplyUseCase.DeleteReply | src/Applications/use_case/ReplyUseCase.js:26-38 | a bad reply id is rejected before any call; otherwise availability, then owner, then the soft delete exactly when both pass |
| ToggleLikeUseCase.ToggleIffChecksPass | src/Applications/use_case/ToggleLikeUseCase.js:12-14 | the toggle happens exactly when the thread exists and the comment is in it, and then it is the one write |
| ToggleLikeUseCase.ToggleLikeUseCase.Execute | src/Applications/use_case/ToggleLikeUseCase.js:8-15 | thread, then scoped comment, then one toggle with the caller's id and the comment id; a failing check is returned and leaves the likes unchanged; otherwise the likes are toggled, and the result is the duplicate-key error exactly when an unliked comment's new like id is taken |
| LikeUseCase.ToggleIffChecksPass | src/Applications/use_case/LikeUseCase.js:8-18 | the write happens exactly when the checks pass; it is a delete exactly when the caller already likes the comment and an insert otherwise, and it is the only write |
| LikeUseCase.LikeUseCase.Execute | src/Applications/use_case/LikeUseCase.js:8-18 | thread, then comment, then the like read; a liked comment loses the caller's likes and an unliked one gains one, so the result is the toggled table |

## Left out

- Input and output are left out: the HTTP layer, SQL text, the connection pool and the promise machinery. This includes the `TO_CHAR(created_at, ...)` formatting of the thread's date in `getThreadById` (a 12-hour clock followed by a literal `Z`): `ThreadRepository.ThreadObject` passes the stored `createdAt` through unchanged. Awaited calls are modelled as sequential calls.
- Clocks and the id generator are parameters (`now`, `idSuffix`).
- Foreign keys, cascades and the differences between the migrations and the queries are not modelled. The tables are the columns the queries use.
- The race between reading a like and writing it (two concurrent toggles) is not modelled, because the model is sequential.
- The entities AddThread, AddComment, AddedThread, AddedComment, AddedReply and ReplyDetail are not part of this model. Their constructors are assumed to copy their fields.
  - The outcome of `new AddThread(...)` and `new AddComment(...)` is an input `Result`.
  - ThreadUseCase.ThreadUseCase.AddThread: the stored owner is the entity's, because the insert ignores the owner id passed beside it.
- Argument shapes differ between the two generations of use cases and the repository signatures.
  - Older use cases pass one entity where the repository expects extra owner or parent arguments.
  - The model stores the owner and parent the use case supplies.
- Some repository methods have no implementation: `verifyAvailableComment`, `verifyAvailableReply`, `verifyThreadAvailability`, `toggleCommentLike`, `getRepliesByCommentId` and `countCommentLikes`. Each gets an abstract contract on the same tables: a scoped check fails exactly when no row with that id has that parent. `verifyAvailableComment` is not absent everywhere: `CommentRepositoryPostgres` inherits it from the `CommentRepository` interface (src/Domains/comments/CommentRepository.js:6-8), which throws COMMENT_REPOSITORY.METHOD_NOT_IMPLEMENTED. The model gives it the intended scoped contract instead of that inherited throw.
  - LikeRepository.LikeRepositoryPostgres.ToggleCommentLike: the toggle is assumed to delete the pair's likes or add one.
- CommentRepository.CommentRepositoryPostgres.DeleteCommentById: the thread id that DeleteCommentUseCase passes as a second argument is ignored, as the implementation ignores it.
- ReplyUseCase.ReplyUseCase.AddReply: AddReply is built from the payload alone. A payload holding only `content` is therefore rejected with ADD_REPLY.NOT_CONTAIN_NEEDED_PROPERTY, even though the use case's own test expects it to pass. The model follows the code.
- GetThreadDetailUseCase reads `is_deleted`, but rows from the comment repository carry `deletedAt`. With those rows nothing is ever masked (GetThreadDetailUseCase.FetchedRowsAreNeverMasked). The per-comment reply fetch is modelled as returning rows that carry `is_deleted`.
- CommentRepository.CommentRepositoryPostgres.GetCommentsByThreadId and LikeRepository.LikeRepositoryPostgres.GetLikesByCommentIds: without ORDER BY, the order of the rows is stated only up to permutation.
- The users table is a fixed map from user id to username. Registration, login and authentication are not part of this model.
- Numbers are integers: there is no NaN, no -0 and no fractions.
- DomainErrorTranslator.Translate: only the directory's own keys are looked up. In the source the directory is a plain object, so a message naming an inherited property (`constructor`, `toString`, `hasOwnProperty`, `valueOf`, `__proto__`) would return that function or the prototype instead of the error. Those returns are not modelled.
- The soft delete is defined twice, in CommentRepository (MarkDeleted and its lemmas) and in ReplyRepository, because the comment and reply rows are different datatypes and the source has one `UPDATE` per table.

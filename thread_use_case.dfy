/**
 * ThreadUseCase: adding a thread, and the batched thread detail. The
 * detail fetches the thread, its comments, the replies and the likes of
 * all those comments in one query each, then assembles the view: deleted
 * content is masked, replies are grouped under their comment and likes are
 * counted per comment.
 */
module ThreadUseCase {
  import opened Wrappers
  import opened JsValues
  import opened Errors
  import opened CallLog
  import opened Entities
  import opened UseCaseParameters
  import Tables
  import CommentDetailEntity
  import ThreadDetailEntity
  import Threads = ThreadRepository
  import Comments = CommentRepository
  import Replies = ReplyRepository
  import Likes = LikeRepository

  const AddThreadUseCaseName := "ADD_THREAD_USE_CASE"
  const GetThreadUseCaseName := "GET_THREAD_USE_CASE"
  const DeletedCommentContent := "**komentar telah dihapus**"
  const DeletedReplyContent := "**balasan telah dihapus**"

  /** `comments.map((comment) => comment.id)` */
  function CommentIds(comments: seq<Payload>): seq<JsValue> {
    seq(|comments|, i requires 0 <= i < |comments| => Field(comments[i], "id"))
  }

  /** `replies.filter((reply) => commentId === reply.commentId)` */
  function RepliesTo(commentId: JsValue, replies: seq<Payload>): (r: seq<Payload>)
    ensures forall p :: multiset(r)[p] == if StrictEquals(commentId, Field(p, "commentId")) then multiset(replies)[p] else 0
  {
    if replies == [] then []
    else
      assert replies == [replies[0]] + replies[1..];
      var rest := RepliesTo(commentId, replies[1..]);
      if StrictEquals(commentId, Field(replies[0], "commentId")) then [replies[0]] + rest else rest
  }

  /** The filter works row by row: filtering two runs of rows is filtering each, in the same order. */
  lemma {:induction false} RepliesToAppend(commentId: JsValue, a: seq<Payload>, b: seq<Payload>)
    ensures RepliesTo(commentId, a + b) == RepliesTo(commentId, a) + RepliesTo(commentId, b)
  {
    if a != [] {
      assert (a + b)[0] == a[0];
      assert (a + b)[1..] == a[1..] + b;
      RepliesToAppend(commentId, a[1..], b);
    } else {
      assert a + b == b;
    }
  }

  /** Every reply the filter keeps was fetched. */
  lemma RepliesToKeepsRowsFetched(commentId: JsValue, replies: seq<Payload>, p: Payload)
    requires p in RepliesTo(commentId, replies)
    ensures p in replies
  {
    assert multiset(RepliesTo(commentId, replies))[p] > 0;
  }

  /** Ascending dates survive the filter, so a comment's replies stay ascending by date. */
  lemma {:induction false} RepliesToKeepsDateOrder(commentId: JsValue, replies: seq<Payload>)
    requires Replies.DatesAscending(replies)
    ensures Replies.DatesAscending(RepliesTo(commentId, replies))
  {
    if replies != [] {
      var rest := RepliesTo(commentId, replies[1..]);
      RepliesToKeepsDateOrder(commentId, replies[1..]);
      if StrictEquals(commentId, Field(replies[0], "commentId")) {
        forall j | 0 <= j < |rest| ensures Tables.TimestampLe(Replies.DateOf(replies[0]), Replies.DateOf(rest[j])) {
          RepliesToKeepsRowsFetched(commentId, replies[1..], rest[j]);
          var k :| 0 <= k < |replies[1..]| && replies[1..][k] == rest[j];
          assert replies[k + 1] == rest[j];
        }
      }
    }
  }

  /** `new ReplyDetail({...reply, content: reply.deletedAt ? placeholder : reply.content})` */
  function ReplyView(reply: Payload): JsValue {
    ReplyDetail(reply + map["content" :=
      if Truthy(Field(reply, "deletedAt")) then Str(DeletedReplyContent) else Field(reply, "content")])
  }

  /** A reply's content is the placeholder exactly when its `deletedAt` is truthy, and its stored content otherwise. */
  lemma ReplyMaskedByDeletedAt(reply: Payload)
    ensures Truthy(Field(reply, "deletedAt")) ==> ReplyView(reply).fields["content"] == Str(DeletedReplyContent)
    ensures !Truthy(Field(reply, "deletedAt")) ==> ReplyView(reply).fields["content"] == Field(reply, "content")
    ensures ReplyView(reply).fields["id"] == Field(reply, "id")
  {
    var p := reply + map["content" :=
      if Truthy(Field(reply, "deletedAt")) then Str(DeletedReplyContent) else Field(reply, "content")];
    assert Field(p, "id") == Field(reply, "id");
  }

  /** The reply views of one comment. */
  function ReplyViews(commentId: JsValue, replies: seq<Payload>): seq<JsValue> {
    var mine := RepliesTo(commentId, replies);
    seq(|mine|, i requires 0 <= i < |mine| => ReplyView(mine[i]))
  }

  /** `likes.filter((like) => commentId === like.commentId)` */
  function LikesOf(commentId: JsValue, likes: seq<Payload>): (r: seq<Payload>)
    ensures |r| <= |likes|
    ensures r == [] <==> forall p | p in likes :: !StrictEquals(commentId, Field(p, "commentId"))
  {
    if likes == [] then []
    else
      assert likes == [likes[0]] + likes[1..];
      assert forall p :: p in likes <==> p == likes[0] || p in likes[1..];
      var rest := LikesOf(commentId, likes[1..]);
      if StrictEquals(commentId, Field(likes[0], "commentId")) then [likes[0]] + rest else rest
  }

  /** A comment's likes are exactly the fetched likes whose `commentId` is strictly equal to its id, each as often as fetched. */
  lemma {:induction false} LikesOfMatching(commentId: JsValue, likes: seq<Payload>)
    ensures forall p :: multiset(LikesOf(commentId, likes))[p]
                        == if StrictEquals(commentId, Field(p, "commentId")) then multiset(likes)[p] else 0
  {
    if likes != [] {
      assert likes == [likes[0]] + likes[1..];
      LikesOfMatching(commentId, likes[1..]);
    }
  }

  /**
   * Counting a listed comment's likes among the fetched `{id, commentId}`
   * rows gives the number of its rows in the likes table.
   */
  lemma {:induction false} FetchedLikeCountIsStoredCount(likes: seq<Tables.LikeRow>, commentIds: seq<JsValue>, commentId: string)
    requires Str(commentId) in commentIds
    ensures |LikesOf(Str(commentId), Likes.LikesFor(likes, commentIds))| == Likes.CountLikes(likes, Str(commentId))
  {
    if likes != [] {
      FetchedLikeCountIsStoredCount(likes[1..], commentIds, commentId);
      var rest := Likes.LikesFor(likes[1..], commentIds);
      if Str(likes[0].commentId) in commentIds {
        var fetched := [Likes.LikeObject(likes[0])] + rest;
        assert fetched[0] == Likes.LikeObject(likes[0]) && fetched[1..] == rest;
        assert Field(fetched[0], "commentId") == Str(likes[0].commentId);
      }
    }
  }

  /** The likes query has no ORDER BY: in whatever order its rows come, a listed comment's like count is its count in the likes table. */
  lemma FetchedLikeCountInAnyOrder(likes: seq<Tables.LikeRow>, commentIds: seq<JsValue>, commentId: string, fetched: seq<Payload>)
    requires Str(commentId) in commentIds
    requires multiset(fetched) == multiset(Likes.LikesFor(likes, commentIds))
    ensures |LikesOf(Str(commentId), fetched)| == Likes.CountLikes(likes, Str(commentId))
  {
    var inTableOrder := Likes.LikesFor(likes, commentIds);
    LikesOfMatching(Str(commentId), fetched);
    LikesOfMatching(Str(commentId), inTableOrder);
    assert multiset(LikesOf(Str(commentId), fetched)) == multiset(LikesOf(Str(commentId), inTableOrder));
    assert |multiset(LikesOf(Str(commentId), fetched))| == |multiset(LikesOf(Str(commentId), inTableOrder))|;
    FetchedLikeCountIsStoredCount(likes, commentIds, commentId);
  }

  /** The payload handed to `new CommentDetail`: the fetched row with content, replies and likeCount set. */
  function CommentPayload(comment: Payload, replies: seq<Payload>, likes: seq<Payload>): Payload {
    var id := Field(comment, "id");
    comment
      + map["content" := if Truthy(Field(comment, "deletedAt")) then Str(DeletedCommentContent) else Field(comment, "content")]
      + map["replies" := Arr(ReplyViews(id, replies))]
      + map["likeCount" := Num(|LikesOf(id, likes)|)]
  }

  /** What the detail of a comment holds, once its payload passes the CommentDetail checks. */
  lemma CommentViewContents(comment: Payload, replies: seq<Payload>, likes: seq<Payload>)
    requires CommentDetailEntity.New(CommentPayload(comment, replies, likes)).Ok?
    ensures var c := CommentDetailEntity.New(CommentPayload(comment, replies, likes)).value;
      && Str(c.id) == Field(comment, "id")
      && Str(c.username) == Field(comment, "username")
      && Str(c.date) == Field(comment, "date")
      && c.content == (if Truthy(Field(comment, "deletedAt")) then DeletedCommentContent else Field(comment, "content").s)
      && c.replies == ReplyViews(Field(comment, "id"), replies)
      && c.likeCount == |LikesOf(Field(comment, "id"), likes)|
  {
    var p := CommentPayload(comment, replies, likes);
    var c := CommentDetailEntity.New(p).value;
    assert CommentDetailEntity.Fields(c)["id"] == Field(p, "id");
    assert CommentDetailEntity.Fields(c)["username"] == Field(p, "username");
    assert CommentDetailEntity.Fields(c)["date"] == Field(p, "date");
    assert CommentDetailEntity.Fields(c)["content"] == Field(p, "content");
    assert CommentDetailEntity.Fields(c)["replies"] == Field(p, "replies");
    assert CommentDetailEntity.Fields(c)["likeCount"] == Field(p, "likeCount");
  }

  /** The payloads handed to `new CommentDetail`, one per fetched comment, in order. */
  function CommentPayloads(comments: seq<Payload>, replies: seq<Payload>, likes: seq<Payload>): seq<Payload> {
    seq(|comments|, i requires 0 <= i < |comments| => CommentPayload(comments[i], replies, likes))
  }

  /**
   * The array the `map` evaluates to: one CommentDetail per fetched comment,
   * in order, or the Error of the first comment whose payload fails.
   */
  function BuildComments(comments: seq<Payload>, replies: seq<Payload>, likes: seq<Payload>): (r: Result<seq<JsValue>, DomainError>)
    ensures r.Ok? <==> CommentDetailEntity.NewAll(CommentPayloads(comments, replies, likes)).Ok?
    ensures r.Ok? ==> |r.value| == |comments|
    ensures r.Err? ==> r.error == PlainError(CommentDetailEntity.NewAll(CommentPayloads(comments, replies, likes)).error)
  {
    match CommentDetailEntity.NewAll(CommentPayloads(comments, replies, likes))
    case Err(code) => Err(PlainError(code))
    case Ok(details) => Ok(seq(|details|, i requires 0 <= i < |details| => CommentDetailEntity.AsValue(details[i])))
  }

  /** One CommentDetail per fetched comment, in order, each built from that comment's payload. */
  lemma BuildCommentsPerComment(comments: seq<Payload>, replies: seq<Payload>, likes: seq<Payload>, i: int)
    requires BuildComments(comments, replies, likes).Ok? && 0 <= i < |comments|
    ensures CommentDetailEntity.New(CommentPayload(comments[i], replies, likes)).Ok?
    ensures BuildComments(comments, replies, likes).value[i]
         == CommentDetailEntity.AsValue(CommentDetailEntity.New(CommentPayload(comments[i], replies, likes)).value)
  {
    assert CommentPayloads(comments, replies, likes)[i] == CommentPayload(comments[i], replies, likes);
  }

  /** `new ThreadDetail({...threadDetail, comments: threadComments})`; spreading `undefined` adds nothing. */
  function AssembleThread(thread: Option<Payload>, comments: seq<Payload>, replies: seq<Payload>, likes: seq<Payload>)
    : (r: Result<ThreadDetailEntity.ThreadDetail, DomainError>)
    ensures BuildComments(comments, replies, likes).Err? ==> r == Err(BuildComments(comments, replies, likes).error)
    ensures r.Ok? ==> BuildComments(comments, replies, likes).Ok? && r.value.comments == BuildComments(comments, replies, likes).value
    ensures r.Ok? ==> (thread.Some?
      && Str(r.value.id) == Field(thread.value, "id") && Str(r.value.title) == Field(thread.value, "title")
      && Str(r.value.body) == Field(thread.value, "body") && Str(r.value.date) == Field(thread.value, "date")
      && Str(r.value.username) == Field(thread.value, "username"))
  {
    var base := if thread.Some? then thread.value else map[];
    match BuildComments(comments, replies, likes)
    case Err(e) => Err(e)
    case Ok(views) =>
      var p := base + map["comments" := Arr(views)];
      match ThreadDetailEntity.New(p)
      case Err(code) => Err(PlainError(code))
      case Ok(t) =>
        assert Field(p, "id") == ThreadDetailEntity.Fields(t)["id"];
        assert Field(p, "title") == ThreadDetailEntity.Fields(t)["title"];
        assert Field(p, "body") == ThreadDetailEntity.Fields(t)["body"];
        assert Field(p, "date") == ThreadDetailEntity.Fields(t)["date"];
        assert Field(p, "username") == ThreadDetailEntity.Fields(t)["username"];
        assert Field(p, "comments") == ThreadDetailEntity.Fields(t)["comments"];
        Ok(t)
  }

  /** Comment details are always CommentDetail instances, so the thread check on them cannot fail. */
  lemma BuiltCommentsAreCommentDetails(comments: seq<Payload>, replies: seq<Payload>, likes: seq<Payload>)
    requires BuildComments(comments, replies, likes).Ok?
    ensures ThreadDetailEntity.AllCommentDetails(BuildComments(comments, replies, likes).value)
  {
  }

  /** A thread with no comments yields an empty comment list. */
  lemma NoCommentsGivesEmptyList(thread: Payload, replies: seq<Payload>, likes: seq<Payload>)
    requires ThreadDetailEntity.HasNeededProperties(thread)
    requires forall k | k in ["id", "title", "body", "date", "username"] :: IsString(Field(thread, k))
    ensures AssembleThread(Some(thread), [], replies, likes).Ok?
    ensures AssembleThread(Some(thread), [], replies, likes).value.comments == []
  {
    var p := thread + map["comments" := Arr([])];
    assert forall k | k != "comments" :: Field(p, k) == Field(thread, k);
    assert Field(p, "comments") == Arr([]);
  }

  /** The like count of a comment with no fetched likes is zero. */
  lemma UnlikedCommentCountsZero(commentId: JsValue, likes: seq<Payload>)
    requires forall p | p in likes :: Field(p, "commentId") != commentId
    ensures |LikesOf(commentId, likes)| == 0
  {
  }

  /** How many of the ids a like matches. */
  function Hits(ids: seq<JsValue>, like: Payload): nat {
    if ids == [] then 0 else (if StrictEquals(ids[0], Field(like, "commentId")) then 1 else 0) + Hits(ids[1..], like)
  }

  /** The like counts of all the comments added up. */
  function TotalLikeCount(ids: seq<JsValue>, likes: seq<Payload>): nat {
    if ids == [] then 0 else |LikesOf(ids[0], likes)| + TotalLikeCount(ids[1..], likes)
  }

  predicate Distinct(ids: seq<JsValue>) {
    forall i, j | 0 <= i < j < |ids| :: ids[i] != ids[j]
  }

  lemma {:induction false} TotalLikeCountStep(ids: seq<JsValue>, like: Payload, rest: seq<Payload>)
    ensures TotalLikeCount(ids, [like] + rest) == TotalLikeCount(ids, rest) + Hits(ids, like)
  {
    if ids != [] {
      assert ([like] + rest)[1..] == rest;
      TotalLikeCountStep(ids[1..], like, rest);
    }
  }

  lemma {:induction false} HitsOfDistinct(ids: seq<JsValue>, like: Payload)
    requires Distinct(ids)
    ensures Hits(ids, like) <= 1
    ensures (forall i | 0 <= i < |ids| :: ids[i] != Field(like, "commentId")) ==> Hits(ids, like) == 0
  {
    if ids != [] {
      HitsOfDistinct(ids[1..], like);
      if StrictEquals(ids[0], Field(like, "commentId")) {
        assert forall i | 0 <= i < |ids[1..]| :: ids[1..][i] != Field(like, "commentId") by {
          forall i | 0 <= i < |ids[1..]| ensures ids[1..][i] != Field(like, "commentId") {
            assert ids[1..][i] == ids[i + 1];
          }
        }
      }
    }
  }

  /** Every like counts towards at most one comment, so the counts add up to at most the likes fetched. */
  lemma {:induction false} TotalLikeCountBounded(ids: seq<JsValue>, likes: seq<Payload>)
    requires Distinct(ids)
    ensures TotalLikeCount(ids, likes) <= |likes|
  {
    if likes == [] {
      ZeroLikes(ids);
    } else {
      assert likes == [likes[0]] + likes[1..];
      TotalLikeCountStep(ids, likes[0], likes[1..]);
      HitsOfDistinct(ids, likes[0]);
      TotalLikeCountBounded(ids, likes[1..]);
    }
  }

  lemma {:induction false} ZeroLikes(ids: seq<JsValue>)
    ensures TotalLikeCount(ids, []) == 0
  {
    if ids != [] {
      ZeroLikes(ids[1..]);
    }
  }

  class ThreadUseCase {
    const threadRepository: Threads.ThreadRepositoryPostgres
    const commentRepository: Comments.CommentRepositoryPostgres
    const replyRepository: Replies.ReplyRepositoryPostgres
    const likeRepository: Likes.LikeRepositoryPostgres
    const journal: Journal

    /** All four repositories record into the use case's journal. */
    predicate Valid() {
      && threadRepository.journal == journal && commentRepository.journal == journal
      && replyRepository.journal == journal && likeRepository.journal == journal
    }

    constructor (threadRepository: Threads.ThreadRepositoryPostgres, commentRepository: Comments.CommentRepositoryPostgres,
                 replyRepository: Replies.ReplyRepositoryPostgres, likeRepository: Likes.LikeRepositoryPostgres)
      requires commentRepository.journal == threadRepository.journal
      requires replyRepository.journal == threadRepository.journal && likeRepository.journal == threadRepository.journal
      ensures Valid() && journal == threadRepository.journal
      ensures this.threadRepository == threadRepository && this.commentRepository == commentRepository
      ensures this.replyRepository == replyRepository && this.likeRepository == likeRepository
    {
      this.threadRepository := threadRepository;
      this.commentRepository := commentRepository;
      this.replyRepository := replyRepository;
      this.likeRepository := likeRepository;
      this.journal := threadRepository.journal;
    }

    /**
     * Validates the owner id, then stores the thread built from the payload
     * (`entity`, the outcome of `new AddThread(payload)`) and returns the
     * repository's result. The repository keeps the entity's own owner; the
     * owner id passed beside it is not used by the insert.
     */
    method AddThread(entity: Result<Entities.AddThread, DomainError>, ownerId: JsValue, idSuffix: string, now: string)
      returns (r: Result<AddedThread, DomainError>)
      requires Valid() && threadRepository.Valid()
      modifies threadRepository, journal
      ensures threadRepository.Valid()
      ensures CheckParameters(AddThreadUseCaseName, [ownerId]).Fail? ==>
        && r == Err(CheckParameters(AddThreadUseCaseName, [ownerId]).error)
        && journal.calls == old(journal.calls) && threadRepository.threads == old(threadRepository.threads)
      ensures CheckParameters(AddThreadUseCaseName, [ownerId]).Pass? && entity.Err? ==>
        r == Err(entity.error) && journal.calls == old(journal.calls) && threadRepository.threads == old(threadRepository.threads)
      ensures CheckParameters(AddThreadUseCaseName, [ownerId]).Pass? && entity.Ok? ==>
        var t := entity.value;
        var id := "thread-" + idSuffix;
        && journal.calls == old(journal.calls) + [Call.AddThread(t.title, t.body, t.owner)]
        && if Threads.HasThread(old(threadRepository.threads), Str(id)) then
             r == Err(DatabaseError(DuplicateKeyMessage)) && threadRepository.threads == old(threadRepository.threads)
           else
             r == Ok(AddedThread(id, t.owner, t.title))
             && threadRepository.threads == old(threadRepository.threads) + [Tables.ThreadRow(id, t.title, t.body, t.owner, now)]
    {
      var check := CheckParameters(AddThreadUseCaseName, [ownerId]);
      if check.Fail? {
        return Err(check.error);
      }
      if entity.Err? {
        return Err(entity.error);
      }
      r := threadRepository.AddThread(entity.value, idSuffix, now);
    }

    /**
     * The batched thread detail. `comments`, `replies` and `likes` are the
     * rows the three fetches returned: the comments and likes in an order
     * the database chooses, the replies ascending by creation time.
     */
    method GetThread(threadId: JsValue)
      returns (r: Result<ThreadDetailEntity.ThreadDetail, DomainError>, ghost comments: seq<Payload>, ghost replies: seq<Payload>, ghost likes: seq<Payload>)
      requires Valid()
      modifies journal
      ensures CheckParameters(GetThreadUseCaseName, [threadId]).Fail? ==>
        r == Err(CheckParameters(GetThreadUseCaseName, [threadId]).error) && journal.calls == old(journal.calls)
      ensures CheckParameters(GetThreadUseCaseName, [threadId]).Pass? && !Threads.HasThread(threadRepository.threads, threadId) ==>
        && r == Err(NotFoundError(Threads.ThreadNotFoundMessage))
        && journal.calls == old(journal.calls) + [Call.VerifyThreadAvailability(threadId)]
      ensures CheckParameters(GetThreadUseCaseName, [threadId]).Pass? && Threads.HasThread(threadRepository.threads, threadId) ==>
        && multiset(comments) == multiset(Comments.CommentsOfThread(commentRepository.comments, commentRepository.usernames, threadId))
        && multiset(replies) == multiset(Replies.RepliesFor(replyRepository.replies, replyRepository.usernames, CommentIds(comments)))
        && Replies.DatesAscending(replies)
        && multiset(likes) == multiset(Likes.LikesFor(likeRepository.likes, CommentIds(comments)))
        && journal.calls == old(journal.calls) + [Call.VerifyThreadAvailability(threadId)] + [Call.GetThreadById(threadId)]
             + [Call.GetCommentsByThreadId(threadId)] + [Call.GetRepliesByCommentIds(CommentIds(comments))]
             + [Call.GetLikesByCommentIds(CommentIds(comments))]
        && r == AssembleThread(Threads.FindThread(threadRepository.threads, threadRepository.usernames, threadId),
                               comments, replies, likes)
    {
      comments, replies, likes := [], [], [];
      var check := CheckParameters(GetThreadUseCaseName, [threadId]);
      if check.Fail? {
        r := Err(check.error);
      } else {
        var available := threadRepository.VerifyThreadAvailability(threadId);
        if available.Fail? {
          r := Err(available.error);
        } else {
          var thread := threadRepository.GetThreadById(threadId);
          var fetchedComments := commentRepository.GetCommentsByThreadId(threadId);
          var commentIds := CommentIds(fetchedComments);
          var fetchedReplies := replyRepository.GetRepliesByCommentIds(commentIds);
          var fetchedLikes := likeRepository.GetLikesByCommentIds(commentIds);
          comments, replies, likes := fetchedComments, fetchedReplies, fetchedLikes;
          r := AssembleThread(thread, fetchedComments, fetchedReplies, fetchedLikes);
        }
      }
    }
  }
}

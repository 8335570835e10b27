/**
 * GetThreadDetailUseCase: the older thread detail, fetched comment by
 * comment. Each comment's like count and replies come from their own
 * repository call, and deleted content is recognised by an `is_deleted`
 * flag on the fetched rows.
 */
module GetThreadDetailUseCase {
  import opened Wrappers
  import opened JsValues
  import opened Errors
  import opened CallLog
  import opened Entities
  import Tables
  import CommentDetailEntity
  import ThreadDetailEntity
  import Threads = ThreadRepository
  import Comments = CommentRepository
  import Replies = ReplyRepository
  import Likes = LikeRepository

  const NotContainThreadIdCode := "GET_THREAD_DETAIL_USE_CASE.NOT_CONTAIN_THREAD_ID"
  /** What destructuring the `undefined` that `getThreadById` returns for a missing row throws. */
  const DestructureUndefinedMessage := "Cannot destructure property 'id' of '(intermediate value)' as it is undefined."
  const DeletedCommentContent := "**komentar telah dihapus**"
  const DeletedReplyContent := "**balasan telah dihapus**"

  /** The payload `mapComments` hands to `new CommentDetail` for one fetched comment. */
  function CommentDetailPayload(comment: Payload, likeCount: int): Payload {
    map["id" := Field(comment, "id"),
        "username" := Field(comment, "username"),
        "date" := Field(comment, "date"),
        "content" := if Truthy(Field(comment, "is_deleted")) then Str(DeletedCommentContent) else Field(comment, "content"),
        "likeCount" := Num(likeCount),
        "replies" := Arr([])]
  }

  /** The payloads of all fetched comments, each with its like count from the likes table. */
  function CommentDetailPayloads(comments: seq<Payload>, likes: seq<Tables.LikeRow>): seq<Payload> {
    seq(|comments|, i requires 0 <= i < |comments| =>
      CommentDetailPayload(comments[i], Likes.CountLikes(likes, Field(comments[i], "id"))))
  }

  /** `new ReplyDetail({id, username, date, content: is_deleted ? placeholder : content})` */
  function ReplyView(reply: Payload): JsValue {
    ReplyDetail(map["id" := Field(reply, "id"),
                    "username" := Field(reply, "username"),
                    "date" := Field(reply, "date"),
                    "content" := if Truthy(Field(reply, "is_deleted")) then Str(DeletedReplyContent) else Field(reply, "content")])
  }

  function ReplyViews(rows: seq<Payload>): seq<JsValue> {
    seq(|rows|, i requires 0 <= i < |rows| => ReplyView(rows[i]))
  }

  /** Detail i with the replies its own fetch returned. */
  function WithReplies(details: seq<CommentDetailEntity.CommentDetail>, replies: seq<Tables.ReplyRow>, users: Tables.Usernames)
    : seq<CommentDetailEntity.CommentDetail>
  {
    seq(|details|, i requires 0 <= i < |details| =>
      details[i].(replies := ReplyViews(Replies.RepliesOfComment(replies, users, Str(details[i].id)))))
  }

  /** The payload of `new ThreadDetail`: the thread's five fields and the comment objects. */
  function ThreadPayload(thread: Payload, details: seq<CommentDetailEntity.CommentDetail>): Payload {
    map["id" := Field(thread, "id"), "title" := Field(thread, "title"), "body" := Field(thread, "body"),
        "date" := Field(thread, "date"), "username" := Field(thread, "username"),
        "comments" := Arr(seq(|details|, i requires 0 <= i < |details| => CommentDetailEntity.AsValue(details[i])))]
  }

  /** The detail `execute` returns for a fetched thread row and fetched comments, given the likes and replies tables. */
  function Assemble(thread: Payload, comments: seq<Payload>, likes: seq<Tables.LikeRow>,
                    replies: seq<Tables.ReplyRow>, users: Tables.Usernames): Result<ThreadDetailEntity.ThreadDetail, DomainError>
  {
    match CommentDetailEntity.NewAll(CommentDetailPayloads(comments, likes))
    case Err(code) => Err(PlainError(code))
    case Ok(details) =>
      match ThreadDetailEntity.New(ThreadPayload(thread, WithReplies(details, replies, users)))
      case Err(code) => Err(PlainError(code))
      case Ok(t) => Ok(t)
  }

  /** A comment's content is the placeholder when its row says `is_deleted`, and its stored content otherwise. */
  lemma MaskedByIsDeleted(comment: Payload, likeCount: int)
    requires CommentDetailEntity.New(CommentDetailPayload(comment, likeCount)).Ok?
    ensures var c := CommentDetailEntity.New(CommentDetailPayload(comment, likeCount)).value;
      && (Truthy(Field(comment, "is_deleted")) ==> c.content == DeletedCommentContent)
      && (!Truthy(Field(comment, "is_deleted")) ==> Str(c.content) == Field(comment, "content"))
      && c.likeCount == likeCount && c.replies == [] && Str(c.id) == Field(comment, "id")
  {
    var p := CommentDetailPayload(comment, likeCount);
    var c := CommentDetailEntity.New(p).value;
    assert CommentDetailEntity.Fields(c)["content"] == Field(p, "content");
    assert CommentDetailEntity.Fields(c)["likeCount"] == Field(p, "likeCount");
    assert CommentDetailEntity.Fields(c)["replies"] == Field(p, "replies");
    assert CommentDetailEntity.Fields(c)["id"] == Field(p, "id");
  }

  /**
   * The rows the comments table returns carry `deletedAt`, never
   * `is_deleted`: read through them, a soft-deleted comment keeps its
   * stored content.
   */
  lemma FetchedRowsAreNeverMasked(comments: seq<Tables.CommentRow>, users: Tables.Usernames, threadId: JsValue, likeCount: int)
    ensures forall p | p in Comments.CommentsOfThread(comments, users, threadId) ::
      Field(CommentDetailPayload(p, likeCount), "content") == Field(p, "content")
  {
    forall p | p in Comments.CommentsOfThread(comments, users, threadId)
      ensures Field(CommentDetailPayload(p, likeCount), "content") == Field(p, "content")
    {
      var row :| row in comments && Str(row.threadId) == threadId && p == Comments.CommentObject(row, users);
      assert "is_deleted" !in p;
    }
  }

  /** One detail per comment, in order, each with its own like count. */
  lemma DetailsFollowComments(comments: seq<Payload>, likes: seq<Tables.LikeRow>)
    requires CommentDetailEntity.NewAll(CommentDetailPayloads(comments, likes)).Ok?
    ensures var details := CommentDetailEntity.NewAll(CommentDetailPayloads(comments, likes)).value;
      && |details| == |comments|
      && forall i | 0 <= i < |comments| ::
        && Str(details[i].id) == Field(comments[i], "id")
        && details[i].likeCount == Likes.CountLikes(likes, Field(comments[i], "id"))
  {
    var payloads := CommentDetailPayloads(comments, likes);
    var details := CommentDetailEntity.NewAll(payloads).value;
    forall i | 0 <= i < |comments|
      ensures Str(details[i].id) == Field(comments[i], "id")
      ensures details[i].likeCount == Likes.CountLikes(likes, Field(comments[i], "id"))
    {
      assert payloads[i] == CommentDetailPayload(comments[i], Likes.CountLikes(likes, Field(comments[i], "id")));
      assert CommentDetailEntity.New(payloads[i]).Ok?;
      MaskedByIsDeleted(comments[i], Likes.CountLikes(likes, Field(comments[i], "id")));
    }
  }

  /** Each comment carries the replies fetched for its own id, in table order. */
  lemma DetailsCarryTheirReplies(comments: seq<Payload>, likes: seq<Tables.LikeRow>,
                                 replies: seq<Tables.ReplyRow>, users: Tables.Usernames)
    requires CommentDetailEntity.NewAll(CommentDetailPayloads(comments, likes)).Ok?
    ensures var details := CommentDetailEntity.NewAll(CommentDetailPayloads(comments, likes)).value;
      forall i | 0 <= i < |comments| ::
        WithReplies(details, replies, users)[i].replies
          == ReplyViews(Replies.RepliesOfComment(replies, users, Field(comments[i], "id")))
  {
    DetailsFollowComments(comments, likes);
  }

  /** The thread's comments are the comment details, each with its replies. */
  lemma AssembledComments(thread: Payload, comments: seq<Payload>, likes: seq<Tables.LikeRow>,
                          replies: seq<Tables.ReplyRow>, users: Tables.Usernames)
    requires Assemble(thread, comments, likes, replies, users).Ok?
    ensures CommentDetailEntity.NewAll(CommentDetailPayloads(comments, likes)).Ok?
    ensures var details := WithReplies(CommentDetailEntity.NewAll(CommentDetailPayloads(comments, likes)).value, replies, users);
      Assemble(thread, comments, likes, replies, users).value.comments
        == seq(|details|, i requires 0 <= i < |details| => CommentDetailEntity.AsValue(details[i]))
  {
    var details := WithReplies(CommentDetailEntity.NewAll(CommentDetailPayloads(comments, likes)).value, replies, users);
    var p := ThreadPayload(thread, details);
    var t := ThreadDetailEntity.New(p).value;
    assert ThreadDetailEntity.Fields(t)["comments"] == Field(p, "comments");
  }

  /** The thread's own fields are the fetched row's. */
  lemma AssembledThreadFields(thread: Payload, comments: seq<Payload>, likes: seq<Tables.LikeRow>,
                              replies: seq<Tables.ReplyRow>, users: Tables.Usernames)
    requires Assemble(thread, comments, likes, replies, users).Ok?
    ensures var t := Assemble(thread, comments, likes, replies, users).value;
      && Str(t.id) == Field(thread, "id") && Str(t.title) == Field(thread, "title") && Str(t.body) == Field(thread, "body")
      && Str(t.date) == Field(thread, "date") && Str(t.username) == Field(thread, "username")
  {
    var details := CommentDetailEntity.NewAll(CommentDetailPayloads(comments, likes)).value;
    var p := ThreadPayload(thread, WithReplies(details, replies, users));
    var t := ThreadDetailEntity.New(p).value;
    assert ThreadDetailEntity.Fields(t)["id"] == Field(p, "id");
    assert ThreadDetailEntity.Fields(t)["title"] == Field(p, "title");
    assert ThreadDetailEntity.Fields(t)["body"] == Field(p, "body");
    assert ThreadDetailEntity.Fields(t)["date"] == Field(p, "date");
    assert ThreadDetailEntity.Fields(t)["username"] == Field(p, "username");
  }

  /** A thread row with no comments yields a detail whose comment list is empty. */
  lemma NoCommentsGivesEmptyList(thread: Payload, likes: seq<Tables.LikeRow>, replies: seq<Tables.ReplyRow>, users: Tables.Usernames)
    requires ThreadDetailEntity.HasNeededProperties(thread)
    requires IsString(Field(thread, "id")) && IsString(Field(thread, "title")) && IsString(Field(thread, "body"))
    requires IsString(Field(thread, "date")) && IsString(Field(thread, "username"))
    ensures Assemble(thread, [], likes, replies, users).Ok?
    ensures Assemble(thread, [], likes, replies, users).value.comments == []
  {
    assert CommentDetailPayloads([], likes) == [];
    var p := ThreadPayload(thread, WithReplies([], replies, users));
    assert Field(p, "comments") == Arr([]);
    assert forall k | k in ["id", "title", "body", "date", "username"] :: Field(p, k) == Field(thread, k);
    ThreadDetailEntity.EmptyCommentsAccepted(p);
  }

  /** A reply's content is the placeholder exactly when its row says `is_deleted`. */
  lemma ReplyMaskedByIsDeleted(reply: Payload)
    ensures Truthy(Field(reply, "is_deleted")) ==> ReplyView(reply).fields["content"] == Str(DeletedReplyContent)
    ensures !Truthy(Field(reply, "is_deleted")) ==> ReplyView(reply).fields["content"] == Field(reply, "content")
  {
  }

  /** The like count calls, one per fetched comment, in order. */
  function CountCalls(comments: seq<Payload>): seq<Call> {
    seq(|comments|, i requires 0 <= i < |comments| => Call.CountCommentLikes(Field(comments[i], "id")))
  }

  /** The reply fetches, one per comment detail, in order. */
  function ReplyCalls(details: seq<CommentDetailEntity.CommentDetail>): seq<Call> {
    seq(|details|, i requires 0 <= i < |details| => Call.GetRepliesByCommentId(Str(details[i].id)))
  }

  class GetThreadDetailUseCase {
    const threadRepository: Threads.ThreadRepositoryPostgres
    const commentRepository: Comments.CommentRepositoryPostgres
    const replyRepository: Replies.ReplyRepositoryPostgres
    const likeRepository: Likes.LikeRepositoryPostgres
    const journal: Journal

    predicate Valid() {
      && threadRepository.journal == journal && commentRepository.journal == journal
      && replyRepository.journal == journal && likeRepository.journal == journal
    }

    constructor (threadRepository: Threads.ThreadRepositoryPostgres, commentRepository: Comments.CommentRepositoryPostgres,
                 replyRepository: Replies.ReplyRepositoryPostgres, likeRepository: Likes.LikeRepositoryPostgres)
      requires commentRepository.journal == threadRepository.journal
      requires replyRepository.journal == threadRepository.journal && likeRepository.journal == threadRepository.journal
      ensures Valid() && journal == threadRepository.journal
      ensures this.threadRepository == threadRepository && this.commentRepository == commentRepository
      ensures this.replyRepository == replyRepository && this.likeRepository == likeRepository
    {
      this.threadRepository := threadRepository;
      this.commentRepository := commentRepository;
      this.replyRepository := replyRepository;
      this.likeRepository := likeRepository;
      this.journal := threadRepository.journal;
    }

    /** `mapComments`: one like count call and one CommentDetail per comment. */
    method MapComments(comments: seq<Payload>) returns (r: Result<seq<CommentDetailEntity.CommentDetail>, string>)
      requires Valid()
      modifies journal
      ensures journal.calls == old(journal.calls) + CountCalls(comments)
      ensures r == CommentDetailEntity.NewAll(CommentDetailPayloads(comments, likeRepository.likes))
    {
      var payloads: seq<Payload> := [];
      var i := 0;
      while i < |comments|
        invariant 0 <= i <= |comments|
        invariant journal.calls == old(journal.calls) + CountCalls(comments[..i])
        invariant payloads == CommentDetailPayloads(comments[..i], likeRepository.likes)
      {
        var likeCount := likeRepository.CountCommentLikes(Field(comments[i], "id"));
        payloads := payloads + [CommentDetailPayload(comments[i], likeCount)];
        assert comments[..i + 1] == comments[..i] + [comments[i]];
        i := i + 1;
      }
      assert comments[..i] == comments;
      r := CommentDetailEntity.NewAll(payloads);
    }

    /**
     * The detail of a thread. `comments` are the rows the comment fetch
     * returned, in the order the database chose.
     */
    method Execute(threadId: JsValue) returns (r: Result<ThreadDetailEntity.ThreadDetail, DomainError>, ghost comments: seq<Payload>)
      requires Valid()
      modifies journal
      ensures !Truthy(threadId) ==> r == Err(PlainError(NotContainThreadIdCode)) && journal.calls == old(journal.calls)
      ensures Truthy(threadId) && !Threads.HasThread(threadRepository.threads, threadId) ==>
        && r == Err(NotFoundError(Threads.ThreadNotFoundMessage))
        && journal.calls == old(journal.calls) + [Call.VerifyAvailableThread(threadId)]
      ensures Truthy(threadId) && Threads.HasThread(threadRepository.threads, threadId) ==>
        match Threads.FindThread(threadRepository.threads, threadRepository.usernames, threadId)
        case None =>
          && r == Err(TypeError(DestructureUndefinedMessage))
          && journal.calls == old(journal.calls) + [Call.VerifyAvailableThread(threadId)] + [Call.GetThreadById(threadId)]
        case Some(thread) =>
          && multiset(comments) == multiset(Comments.CommentsOfThread(commentRepository.comments, commentRepository.usernames, threadId))
          && r == Assemble(thread, comments, likeRepository.likes, replyRepository.replies, replyRepository.usernames)
          && var details := CommentDetailEntity.NewAll(CommentDetailPayloads(comments, likeRepository.likes));
             journal.calls == old(journal.calls) + [Call.VerifyAvailableThread(threadId)] + [Call.GetThreadById(threadId)]
               + [Call.GetCommentsByThreadId(threadId)] + CountCalls(comments)
               + (if details.Ok? then ReplyCalls(details.value) else [])
    {
      comments := [];
      if !Truthy(threadId) {
        return Err(PlainError(NotContainThreadIdCode)), comments;
      }
      var available := threadRepository.VerifyAvailableThread(threadId);
      if available.Fail? {
        return Err(available.error), comments;
      }
      var thread := threadRepository.GetThreadById(threadId);
      if thread.None? {
        return Err(TypeError(DestructureUndefinedMessage)), comments;
      }
      var fetched := commentRepository.GetCommentsByThreadId(threadId);
      comments := fetched;
      var mapped := MapComments(fetched);
      if mapped.Err? {
        return Err(PlainError(mapped.error)), comments;
      }
      var details := FillReplies(mapped.value);
      r := match ThreadDetailEntity.New(ThreadPayload(thread.value, details))
        case Err(code) => Err(PlainError(code))
        case Ok(t) => Ok(t);
    }

    /**
     * The reply fetch for every comment, then the `forEach` that sets each
     * comment's `replies` in place.
     */
    method FillReplies(details: seq<CommentDetailEntity.CommentDetail>) returns (filled: seq<CommentDetailEntity.CommentDetail>)
      requires Valid()
      modifies journal
      ensures journal.calls == old(journal.calls) + ReplyCalls(details)
      ensures filled == WithReplies(details, replyRepository.replies, replyRepository.usernames)
    {
      var results: seq<seq<Payload>> := [];
      var i := 0;
      while i < |details|
        invariant 0 <= i <= |details|
        invariant journal.calls == old(journal.calls) + ReplyCalls(details[..i])
        invariant |results| == i
        invariant forall j | 0 <= j < i ::
          results[j] == Replies.RepliesOfComment(replyRepository.replies, replyRepository.usernames, Str(details[j].id))
      {
        var rows := replyRepository.GetRepliesByCommentId(Str(details[i].id));
        results := results + [rows];
        assert details[..i + 1] == details[..i] + [details[i]];
        i := i + 1;
      }
      assert details[..i] == details;
      var comments := new CommentDetailEntity.CommentDetail[|details|](j requires 0 <= j < |details| => details[j]);
      var index := 0;
      while index < comments.Length
        invariant 0 <= index <= comments.Length
        invariant journal.calls == old(journal.calls) + ReplyCalls(details)
        invariant forall j | 0 <= j < index :: comments[j] == details[j].(replies := ReplyViews(results[j]))
        invariant forall j | index <= j < comments.Length :: comments[j] == details[j]
      {
        comments[index] := comments[index].(replies := ReplyViews(results[index]));
        index := index + 1;
      }
      filled := comments[..];
    }
  }
}

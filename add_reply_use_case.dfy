/**
 * AddReplyUseCase: the thread must exist and the comment must be in it;
 * only then is the reply built from the caller's id, the comment id and
 * the payload's content, and stored.
 */
module AddReplyUseCase {
  import opened Wrappers
  import opened JsValues
  import opened Errors
  import opened CallLog
  import opened Chain
  import opened Entities
  import Tables
  import AddReplyEntity
  import Threads = ThreadRepository
  import Comments = CommentRepository
  import Replies = ReplyRepository

  /** The checks `execute` runs before building the reply. */
  function Checks(threads: seq<Tables.ThreadRow>, comments: seq<Tables.CommentRow>, threadId: string, commentId: string): seq<Step> {
    [Step(Call.VerifyAvailableThread(Str(threadId)), Threads.ThreadCheck(threads, Str(threadId))),
     Step(Call.VerifyAvailableComment(threadId, commentId), Comments.ScopedCheck(comments, threadId, commentId))]
  }

  /** `{ owner: id, comment: commentId, content: payload.content }` */
  function ReplyPayload(payload: Payload, ownerId: JsValue, commentId: string): Payload {
    map["owner" := ownerId, "comment" := Str(commentId), "content" := Field(payload, "content")]
  }

  /** A non-empty string content from a signed-in caller makes a reply owned by the caller, under the comment. */
  lemma ReplyBelongsToCallerAndComment(payload: Payload, ownerId: string, commentId: string)
    requires Field(payload, "content").Str? && Field(payload, "content").s != []
    requires ownerId != [] && commentId != []
    ensures AddReplyEntity.New(ReplyPayload(payload, Str(ownerId), commentId))
         == Ok(AddReplyEntity.AddReply(Field(payload, "content").s, ownerId, commentId))
  {
    var p := ReplyPayload(payload, Str(ownerId), commentId);
    assert Field(p, "owner") == Str(ownerId) && Field(p, "comment") == Str(commentId);
  }

  /** Content that is missing or empty is rejected as missing, whatever else the request holds. */
  lemma MissingContentRejected(payload: Payload, ownerId: JsValue, commentId: string)
    requires !Truthy(Field(payload, "content"))
    ensures AddReplyEntity.New(ReplyPayload(payload, ownerId, commentId)) == Err(AddReplyEntity.NotContainNeededProperty)
  {
    assert Field(ReplyPayload(payload, ownerId, commentId), "content") == Field(payload, "content");
  }

  /** A missing thread is reported before the comment is looked at. */
  lemma MissingThreadStopsTheChain(threads: seq<Tables.ThreadRow>, comments: seq<Tables.CommentRow>, threadId: string, commentId: string)
    requires !Threads.HasThread(threads, Str(threadId))
    ensures Run(Checks(threads, comments, threadId, commentId)) == Fail(NotFoundError(Threads.ThreadNotFoundMessage))
    ensures CallsMade(Checks(threads, comments, threadId, commentId)) == [Call.VerifyAvailableThread(Str(threadId))]
  {
    RunStopsAtFirstFailure(Checks(threads, comments, threadId, commentId), 0);
  }

  /** The checks pass exactly when the comment is in the thread and the thread exists. */
  lemma ChecksPassIff(threads: seq<Tables.ThreadRow>, comments: seq<Tables.CommentRow>, threadId: string, commentId: string)
    ensures Run(Checks(threads, comments, threadId, commentId)).Pass? <==>
      Threads.HasThread(threads, Str(threadId)) && Comments.HasCommentInThread(comments, threadId, commentId)
  {
    var steps := Checks(threads, comments, threadId, commentId);
    RunPasses(steps);
    assert Run(steps).Pass? <==> steps[0].outcome.Pass? && steps[1].outcome.Pass?;
  }

  class AddReplyUseCase {
    const commentRepository: Comments.CommentRepositoryPostgres
    const replyRepository: Replies.ReplyRepositoryPostgres
    const threadRepository: Threads.ThreadRepositoryPostgres
    const journal: Journal

    predicate Valid() {
      replyRepository.journal == journal && commentRepository.journal == journal && threadRepository.journal == journal
    }

    constructor (commentRepository: Comments.CommentRepositoryPostgres, replyRepository: Replies.ReplyRepositoryPostgres,
                 threadRepository: Threads.ThreadRepositoryPostgres)
      requires commentRepository.journal == replyRepository.journal && threadRepository.journal == replyRepository.journal
      ensures Valid() && journal == replyRepository.journal
      ensures this.replyRepository == replyRepository && this.commentRepository == commentRepository
      ensures this.threadRepository == threadRepository
    {
      this.commentRepository := commentRepository;
      this.replyRepository := replyRepository;
      this.threadRepository := threadRepository;
      this.journal := replyRepository.journal;
    }

    /**
     * `execute(useCasePayload, useCaseAuth, useCaseParam)`: `ownerId` is
     * the caller's id; `idSuffix` and `now` are the generated id and the
     * insert time.
     */
    method Execute(payload: Payload, ownerId: JsValue, threadId: string, commentId: string, idSuffix: string, now: string)
      returns (r: Result<AddedReply, DomainError>)
      requires Valid() && replyRepository.Valid()
      modifies replyRepository, journal
      ensures replyRepository.Valid()
      ensures var steps := Checks(threadRepository.threads, commentRepository.comments, threadId, commentId);
        var entity := AddReplyEntity.New(ReplyPayload(payload, ownerId, commentId));
        var id := "reply-" + idSuffix;
        if Run(steps).Fail? then
          && r == Err(Run(steps).error)
          && journal.calls == old(journal.calls) + CallsMade(steps)
          && replyRepository.replies == old(replyRepository.replies)
        else if entity.Err? then
          && r == Err(PlainError(entity.error))
          && journal.calls == old(journal.calls) + CallsMade(steps)
          && replyRepository.replies == old(replyRepository.replies)
        else
          && journal.calls == old(journal.calls) + CallsMade(steps)
             + [Call.AddReply(entity.value.content, entity.value.owner, entity.value.comment)]
          && if Replies.HasReply(old(replyRepository.replies), id) then
               r == Err(DatabaseError(DuplicateKeyMessage)) && replyRepository.replies == old(replyRepository.replies)
             else
               && r == Ok(AddedReply(id, entity.value.content, entity.value.owner))
               && replyRepository.replies == old(replyRepository.replies)
                  + [Tables.ReplyRow(id, entity.value.content, entity.value.owner, entity.value.comment, now, None)]
    {
      ghost var steps := Checks(threadRepository.threads, commentRepository.comments, threadId, commentId);
      var check := threadRepository.VerifyAvailableThread(Str(threadId));
      if check.Fail? {
        return Err(check.error);
      }
      PassedPrefix(steps, 1);
      check := commentRepository.VerifyAvailableComment(threadId, commentId);
      if check.Fail? {
        return Err(check.error);
      }
      PassedPrefix(steps, 2);
      var entity := AddReplyEntity.New(ReplyPayload(payload, ownerId, commentId));
      if entity.Err? {
        return Err(PlainError(entity.error));
      }
      r := replyRepository.AddReply(entity.value.content, entity.value.owner, entity.value.comment, idSuffix, now);
    }
  }
}

/**
 * ReplyUseCase: the newer reply operations. Each opens with guard clauses
 * on its parameters, then checks existence (by id alone, not scoped to a
 * thread or comment) before its one write.
 */
module ReplyUseCase {
  import opened Wrappers
  import opened JsValues
  import opened Errors
  import opened CallLog
  import opened Chain
  import opened Entities
  import opened UseCaseParameters
  import Tables
  import AddReplyEntity
  import Threads = ThreadRepository
  import Comments = CommentRepository
  import Replies = ReplyRepository

  const AddReplyUseCaseName := "ADD_REPLY_USE_CASE"
  const DeleteReplyUseCaseName := "DELETE_REPLY_USE_CASE"

  /** The checks `addReply` runs once its parameters are valid. */
  function AddChecks(threads: seq<Tables.ThreadRow>, comments: seq<Tables.CommentRow>, threadId: JsValue, commentId: string): seq<Step> {
    [Step(Call.VerifyThreadAvailability(threadId), Threads.ThreadCheck(threads, threadId)),
     Step(Call.VerifyCommentAvailability(commentId), Comments.AvailabilityCheck(comments, commentId))]
  }

  /** The checks `deleteReply` runs once its parameter is valid. */
  function DeleteChecks(replies: seq<Tables.ReplyRow>, replyId: string, userId: JsValue): seq<Step> {
    [Step(Call.VerifyReplyAvailability(replyId), Replies.AvailabilityCheck(replies, replyId)),
     Step(Call.VerifyReplyOwner(replyId, userId), Replies.OwnerCheck(replies, replyId, userId))]
  }

  /**
   * `addReply`'s checks pass exactly when the thread exists and some
   * comment has the id, in whichever thread it is.
   */
  lemma AddChecksPassIff(threads: seq<Tables.ThreadRow>, comments: seq<Tables.CommentRow>, threadId: JsValue, commentId: string)
    ensures Run(AddChecks(threads, comments, threadId, commentId)).Pass? <==>
      Threads.HasThread(threads, threadId) && Comments.HasComment(comments, commentId)
  {
    var steps := AddChecks(threads, comments, threadId, commentId);
    RunPasses(steps);
    assert Run(steps).Pass? <==> steps[0].outcome.Pass? && steps[1].outcome.Pass?;
  }

  /** `deleteReply` goes ahead exactly when the caller owns a reply with that id. */
  lemma DeleteAllowedIff(replies: seq<Tables.ReplyRow>, replyId: string, userId: JsValue)
    requires Replies.UniqueIds(replies)
    ensures Run(DeleteChecks(replies, replyId, userId)).Pass? <==>
      exists row | row in replies :: row.id == replyId && Str(row.owner) == userId
  {
    var steps := DeleteChecks(replies, replyId, userId);
    RunPasses(steps);
    assert Run(steps).Pass? <==> steps[0].outcome.Pass? && steps[1].outcome.Pass?;
    if Replies.HasReply(replies, replyId) {
      var row :| row in replies && row.id == replyId;
      Replies.OwnerCheckAgainstStoredOwner(replies, row, userId);
      forall other | other in replies && other.id == replyId ensures other == row {
        Replies.FirstReplyIsTheRow(replies, other);
        Replies.FirstReplyIsTheRow(replies, row);
      }
    }
  }

  /** Someone other than a stored reply's owner is refused, and the delete is never called. */
  lemma NonOwnerNeverDeletes(replies: seq<Tables.ReplyRow>, row: Tables.ReplyRow, userId: JsValue)
    requires Replies.UniqueIds(replies) && row in replies && userId != Str(row.owner)
    ensures Run(DeleteChecks(replies, row.id, userId)) == Fail(AuthorizationError(ForbiddenMessage))
    ensures Call.DeleteReplyById(row.id) !in Guarded(DeleteChecks(replies, row.id, userId), [Call.DeleteReplyById(row.id)])
  {
    var steps := DeleteChecks(replies, row.id, userId);
    Replies.OwnerCheckAgainstStoredOwner(replies, row, userId);
    RunStopsAtFirstFailure(steps, 1);
    assert steps[..2] == steps;
    AllCallsAt(steps);
  }

  class ReplyUseCase {
    const replyRepository: Replies.ReplyRepositoryPostgres
    const threadRepository: Threads.ThreadRepositoryPostgres
    const commentRepository: Comments.CommentRepositoryPostgres
    const journal: Journal

    predicate Valid() {
      replyRepository.journal == journal && commentRepository.journal == journal && threadRepository.journal == journal
    }

    constructor (replyRepository: Replies.ReplyRepositoryPostgres, threadRepository: Threads.ThreadRepositoryPostgres,
                 commentRepository: Comments.CommentRepositoryPostgres)
      requires commentRepository.journal == replyRepository.journal && threadRepository.journal == replyRepository.journal
      ensures Valid() && journal == replyRepository.journal
      ensures this.replyRepository == replyRepository && this.commentRepository == commentRepository
      ensures this.threadRepository == threadRepository
    {
      this.replyRepository := replyRepository;
      this.threadRepository := threadRepository;
      this.commentRepository := commentRepository;
      this.journal := replyRepository.journal;
    }

    /**
     * `addReply(useCasePayload, ownerId, threadId, commentId)`. The reply
     * is built from the payload alone, so the payload itself must carry a
     * non-empty owner and comment; the row stores the parameters.
     */
    method AddReply(payload: Payload, ownerId: JsValue, threadId: JsValue, commentId: JsValue, idSuffix: string, now: string)
      returns (r: Result<AddedReply, DomainError>)
      requires Valid() && replyRepository.Valid()
      modifies replyRepository, journal
      ensures replyRepository.Valid()
      ensures CheckParameters(AddReplyUseCaseName, [ownerId, commentId]).Fail? ==>
        && r == Err(CheckParameters(AddReplyUseCaseName, [ownerId, commentId]).error)
        && journal.calls == old(journal.calls) && replyRepository.replies == old(replyRepository.replies)
      ensures CheckParameters(AddReplyUseCaseName, [ownerId, commentId]).Pass? ==>
        ownerId.Str? && commentId.Str? &&
        var steps := AddChecks(threadRepository.threads, commentRepository.comments, threadId, commentId.s);
        var entity := AddReplyEntity.New(payload);
        var id := "reply-" + idSuffix;
        if Run(steps).Fail? then
          && r == Err(Run(steps).error)
          && journal.calls == old(journal.calls) + CallsMade(steps)
          && replyRepository.replies == old(replyRepository.replies)
        else if entity.Err? then
          && r == Err(PlainError(entity.error))
          && journal.calls == old(journal.calls) + CallsMade(steps)
          && replyRepository.replies == old(replyRepository.replies)
        else
          && journal.calls == old(journal.calls) + CallsMade(steps) + [Call.AddReply(entity.value.content, ownerId.s, commentId.s)]
          && if Replies.HasReply(old(replyRepository.replies), id) then
               r == Err(DatabaseError(DuplicateKeyMessage)) && replyRepository.replies == old(replyRepository.replies)
             else
               && r == Ok(AddedReply(id, entity.value.content, ownerId.s))
               && replyRepository.replies == old(replyRepository.replies)
                  + [Tables.ReplyRow(id, entity.value.content, ownerId.s, commentId.s, now, None)]
    {
      var parameters := CheckParameters(AddReplyUseCaseName, [ownerId, commentId]);
      if parameters.Fail? {
        return Err(parameters.error);
      }
      assert [ownerId, commentId][0].Str? && [ownerId, commentId][1].Str?;
      ghost var steps := AddChecks(threadRepository.threads, commentRepository.comments, threadId, commentId.s);
      var check := threadRepository.VerifyThreadAvailability(threadId);
      if check.Fail? {
        return Err(check.error);
      }
      PassedPrefix(steps, 1);
      check := commentRepository.VerifyCommentAvailability(commentId.s);
      if check.Fail? {
        return Err(check.error);
      }
      PassedPrefix(steps, 2);
      var entity := AddReplyEntity.New(payload);
      if entity.Err? {
        return Err(PlainError(entity.error));
      }
      r := replyRepository.AddReply(entity.value.content, ownerId.s, commentId.s, idSuffix, now);
    }

    /** `deleteReply(replyId, userId)`: `now` is the time the soft delete records. */
    method DeleteReply(replyId: JsValue, userId: JsValue, now: string) returns (r: Outcome<DomainError>)
      requires Valid() && replyRepository.Valid()
      modifies replyRepository, journal
      ensures replyRepository.Valid()
      ensures CheckParameters(DeleteReplyUseCaseName, [replyId]).Fail? ==>
        && r == CheckParameters(DeleteReplyUseCaseName, [replyId])
        && journal.calls == old(journal.calls) && replyRepository.replies == old(replyRepository.replies)
      ensures CheckParameters(DeleteReplyUseCaseName, [replyId]).Pass? ==>
        replyId.Str? &&
        var steps := DeleteChecks(old(replyRepository.replies), replyId.s, userId);
        && r == Run(steps)
        && journal.calls == old(journal.calls) + Guarded(steps, [Call.DeleteReplyById(replyId.s)])
        && replyRepository.replies
           == if r.Pass? then Replies.MarkDeleted(old(replyRepository.replies), replyId.s, now)
              else old(replyRepository.replies)
    {
      r := CheckParameters(DeleteReplyUseCaseName, [replyId]);
      if r.Fail? {
        return;
      }
      assert [replyId][0].Str?;
      ghost var steps := DeleteChecks(replyRepository.replies, replyId.s, userId);
      r := replyRepository.VerifyReplyAvailability(replyId.s);
      if r.Fail? {
        return;
      }
      PassedPrefix(steps, 1);
      r := replyRepository.VerifyReplyOwner(replyId.s, userId);
      if r.Fail? {
        return;
      }
      PassedPrefix(steps, 2);
      replyRepository.DeleteReplyById(replyId.s, now);
    }
  }
}

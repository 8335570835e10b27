/**
 * CommentUseCase: the newer comment operations. Each opens with guard
 * clauses on its parameters, then checks existence before its one write;
 * the delete is not scoped to a thread.
 */
module CommentUseCase {
  import opened Wrappers
  import opened JsValues
  import opened Errors
  import opened CallLog
  import opened Chain
  import opened Entities
  import opened UseCaseParameters
  import Tables
  import Threads = ThreadRepository
  import Comments = CommentRepository

  const AddCommentUseCaseName := "ADD_COMMENT_USE_CASE"
  const DeleteCommentUseCaseName := "DELETE_COMMENT_USE_CASE"

  /** The checks `deleteComment` runs once its parameter is valid. */
  function DeleteChecks(comments: seq<Tables.CommentRow>, commentId: string, userId: JsValue): seq<Step> {
    [Step(Call.VerifyCommentAvailability(commentId), Comments.AvailabilityCheck(comments, commentId)),
     Step(Call.VerifyCommentOwner(commentId, userId), Comments.OwnerCheck(comments, commentId, userId))]
  }

  /** `deleteComment` goes ahead exactly when the caller owns a comment with that id, in any thread. */
  lemma DeleteAllowedIff(comments: seq<Tables.CommentRow>, commentId: string, userId: JsValue)
    requires Comments.UniqueIds(comments)
    ensures Run(DeleteChecks(comments, commentId, userId)).Pass? <==>
      exists row | row in comments :: row.id == commentId && Str(row.owner) == userId
  {
    var steps := DeleteChecks(comments, commentId, userId);
    RunPasses(steps);
    assert Run(steps).Pass? <==> steps[0].outcome.Pass? && steps[1].outcome.Pass?;
    if Comments.HasComment(comments, commentId) {
      var row :| row in comments && row.id == commentId;
      Comments.OwnerCheckAgainstStoredOwner(comments, row, userId);
      forall other | other in comments && other.id == commentId ensures other == row {
        Comments.FirstCommentIsTheRow(comments, other);
        Comments.FirstCommentIsTheRow(comments, row);
      }
    }
  }

  /** Someone other than a stored comment's owner is refused, and the delete is never called. */
  lemma NonOwnerNeverDeletes(comments: seq<Tables.CommentRow>, row: Tables.CommentRow, userId: JsValue)
    requires Comments.UniqueIds(comments) && row in comments && userId != Str(row.owner)
    ensures Run(DeleteChecks(comments, row.id, userId)) == Fail(AuthorizationError(ForbiddenMessage))
    ensures Call.DeleteCommentById(row.id) !in Guarded(DeleteChecks(comments, row.id, userId), [Call.DeleteCommentById(row.id)])
  {
    var steps := DeleteChecks(comments, row.id, userId);
    Comments.OwnerCheckAgainstStoredOwner(comments, row, userId);
    RunStopsAtFirstFailure(steps, 1);
    assert steps[..2] == steps;
    AllCallsAt(steps);
  }

  class CommentUseCase {
    const commentRepository: Comments.CommentRepositoryPostgres
    const threadRepository: Threads.ThreadRepositoryPostgres
    const journal: Journal

    predicate Valid() {
      commentRepository.journal == journal && threadRepository.journal == journal
    }

    constructor (commentRepository: Comments.CommentRepositoryPostgres, threadRepository: Threads.ThreadRepositoryPostgres)
      requires commentRepository.journal == threadRepository.journal
      ensures Valid() && journal == commentRepository.journal
      ensures this.commentRepository == commentRepository && this.threadRepository == threadRepository
    {
      this.commentRepository := commentRepository;
      this.threadRepository := threadRepository;
      this.journal := commentRepository.journal;
    }

    /**
     * `addComment(useCasePayload, ownerId, threadId)`. `content` is what
     * `new AddComment(useCasePayload)` yields: the content, or the error
     * it throws. The thread is checked before that entity is built.
     */
    method AddComment(content: Result<string, DomainError>, ownerId: JsValue, threadId: JsValue, idSuffix: string, now: string)
      returns (r: Result<AddedComment, DomainError>)
      requires Valid() && commentRepository.Valid()
      modifies commentRepository, journal
      ensures commentRepository.Valid()
      ensures CheckParameters(AddCommentUseCaseName, [ownerId, threadId]).Fail? ==>
        && r == Err(CheckParameters(AddCommentUseCaseName, [ownerId, threadId]).error)
        && journal.calls == old(journal.calls) && commentRepository.comments == old(commentRepository.comments)
      ensures CheckParameters(AddCommentUseCaseName, [ownerId, threadId]).Pass? ==>
        ownerId.Str? && threadId.Str? &&
        var id := "comment-" + idSuffix;
        if !Threads.HasThread(threadRepository.threads, threadId) then
          && r == Err(NotFoundError(Threads.ThreadNotFoundMessage))
          && journal.calls == old(journal.calls) + [Call.VerifyThreadAvailability(threadId)]
          && commentRepository.comments == old(commentRepository.comments)
        else if content.Err? then
          && r == Err(content.error)
          && journal.calls == old(journal.calls) + [Call.VerifyThreadAvailability(threadId)]
          && commentRepository.comments == old(commentRepository.comments)
        else
          && journal.calls == old(journal.calls) + [Call.VerifyThreadAvailability(threadId)]
             + [Call.AddComment(content.value, ownerId.s, threadId.s)]
          && if Comments.HasComment(old(commentRepository.comments), id) then
               r == Err(DatabaseError(DuplicateKeyMessage)) && commentRepository.comments == old(commentRepository.comments)
             else
               && r == Ok(AddedComment(id, content.value, ownerId.s))
               && commentRepository.comments == old(commentRepository.comments)
                  + [Tables.CommentRow(id, content.value, ownerId.s, threadId.s, now, None)]
    {
      var parameters := CheckParameters(AddCommentUseCaseName, [ownerId, threadId]);
      if parameters.Fail? {
        return Err(parameters.error);
      }
      assert [ownerId, threadId][0].Str? && [ownerId, threadId][1].Str?;
      var check := threadRepository.VerifyThreadAvailability(threadId);
      if check.Fail? {
        return Err(check.error);
      }
      if content.Err? {
        return Err(content.error);
      }
      r := commentRepository.AddComment(content.value, ownerId.s, threadId.s, idSuffix, now);
    }

    /** `deleteComment(commentId, userId)`: `now` is the time the soft delete records. */
    method DeleteComment(commentId: JsValue, userId: JsValue, now: string) returns (r: Outcome<DomainError>)
      requires Valid() && commentRepository.Valid()
      modifies commentRepository, journal
      ensures commentRepository.Valid()
      ensures CheckParameters(DeleteCommentUseCaseName, [commentId]).Fail? ==>
        && r == CheckParameters(DeleteCommentUseCaseName, [commentId])
        && journal.calls == old(journal.calls) && commentRepository.comments == old(commentRepository.comments)
      ensures CheckParameters(DeleteCommentUseCaseName, [commentId]).Pass? ==>
        commentId.Str? &&
        var steps := DeleteChecks(old(commentRepository.comments), commentId.s, userId);
        && r == Run(steps)
        && journal.calls == old(journal.calls) + Guarded(steps, [Call.DeleteCommentById(commentId.s)])
        && commentRepository.comments
           == if r.Pass? then Comments.MarkDeleted(old(commentRepository.comments), commentId.s, now)
              else old(commentRepository.comments)
    {
      r := CheckParameters(DeleteCommentUseCaseName, [commentId]);
      if r.Fail? {
        return;
      }
      assert [commentId][0].Str?;
      ghost var steps := DeleteChecks(commentRepository.comments, commentId.s, userId);
      r := commentRepository.VerifyCommentAvailability(commentId.s);
      if r.Fail? {
        return;
      }
      PassedPrefix(steps, 1);
      r := commentRepository.VerifyCommentOwner(commentId.s, userId);
      if r.Fail? {
        return;
      }
      PassedPrefix(steps, 2);
      commentRepository.DeleteCommentById(commentId.s, now);
    }
  }
}

/**
 * DeleteCommentUseCase: the thread must exist, the comment must belong to
 * it, the caller must own the comment; only then is the comment
 * soft-deleted.
 */
module DeleteCommentUseCase {
  import opened Wrappers
  import opened JsValues
  import opened Errors
  import opened CallLog
  import opened Chain
  import Tables
  import Threads = ThreadRepository
  import Comments = CommentRepository

  /** The checks `execute` runs, in order, each with its outcome on the current tables. */
  function Checks(threads: seq<Tables.ThreadRow>, comments: seq<Tables.CommentRow>,
                  threadId: string, commentId: string, userId: JsValue): seq<Step>
  {
    [Step(Call.VerifyAvailableThread(Str(threadId)), Threads.ThreadCheck(threads, Str(threadId))),
     Step(Call.VerifyAvailableComment(threadId, commentId), Comments.ScopedCheck(comments, threadId, commentId)),
     Step(Call.VerifyCommentOwner(commentId, userId), Comments.OwnerCheck(comments, commentId, userId))]
  }

  /**
   * The delete goes ahead exactly when the thread exists and the caller
   * owns a comment with that id in that thread.
   */
  lemma DeleteAllowedIff(threads: seq<Tables.ThreadRow>, comments: seq<Tables.CommentRow>,
                         threadId: string, commentId: string, userId: JsValue)
    requires Comments.UniqueIds(comments)
    ensures Run(Checks(threads, comments, threadId, commentId, userId)).Pass? <==>
      && Threads.HasThread(threads, Str(threadId))
      && exists row | row in comments :: row.id == commentId && row.threadId == threadId && Str(row.owner) == userId
  {
    var steps := Checks(threads, comments, threadId, commentId, userId);
    RunPasses(steps);
    assert Run(steps).Pass? <==> steps[0].outcome.Pass? && steps[1].outcome.Pass? && steps[2].outcome.Pass?;
    if Comments.HasCommentInThread(comments, threadId, commentId) {
      var row :| row in comments && row.id == commentId && row.threadId == threadId;
      Comments.OwnerCheckAgainstStoredOwner(comments, row, userId);
      forall other | other in comments && other.id == commentId ensures other == row {
        Comments.FirstCommentIsTheRow(comments, other);
        Comments.FirstCommentIsTheRow(comments, row);
      }
    }
  }

  /** A missing thread is reported as such, and no other call is made. */
  lemma MissingThreadStopsTheChain(threads: seq<Tables.ThreadRow>, comments: seq<Tables.CommentRow>,
                                   threadId: string, commentId: string, userId: JsValue)
    requires !Threads.HasThread(threads, Str(threadId))
    ensures Run(Checks(threads, comments, threadId, commentId, userId)) == Fail(NotFoundError(Threads.ThreadNotFoundMessage))
    ensures CallsMade(Checks(threads, comments, threadId, commentId, userId)) == [Call.VerifyAvailableThread(Str(threadId))]
  {
    var steps := Checks(threads, comments, threadId, commentId, userId);
    RunStopsAtFirstFailure(steps, 0);
  }

  /** A comment missing from the thread is reported before ownership is looked at. */
  lemma MissingCommentSkipsOwnerCheck(threads: seq<Tables.ThreadRow>, comments: seq<Tables.CommentRow>,
                                      threadId: string, commentId: string, userId: JsValue)
    requires Threads.HasThread(threads, Str(threadId)) && !Comments.HasCommentInThread(comments, threadId, commentId)
    ensures Run(Checks(threads, comments, threadId, commentId, userId)) == Fail(NotFoundError(Comments.CommentNotFoundMessage))
    ensures CallsMade(Checks(threads, comments, threadId, commentId, userId))
         == [Call.VerifyAvailableThread(Str(threadId)), Call.VerifyAvailableComment(threadId, commentId)]
  {
    var steps := Checks(threads, comments, threadId, commentId, userId);
    RunStopsAtFirstFailure(steps, 1);
    assert steps[..2] == [steps[0], steps[1]];
  }

  /** Someone other than the owner of a comment in the thread gets the authorization error. */
  lemma NonOwnerIsForbidden(threads: seq<Tables.ThreadRow>, comments: seq<Tables.CommentRow>,
                            threadId: string, row: Tables.CommentRow, userId: JsValue)
    requires Comments.UniqueIds(comments) && row in comments
    requires Threads.HasThread(threads, Str(row.threadId)) && userId != Str(row.owner)
    ensures Run(Checks(threads, comments, row.threadId, row.id, userId)) == Fail(AuthorizationError(ForbiddenMessage))
  {
    var steps := Checks(threads, comments, row.threadId, row.id, userId);
    Comments.OwnerCheckAgainstStoredOwner(comments, row, userId);
    RunStopsAtFirstFailure(steps, 2);
  }

  /** The use case writes once when the checks pass and never otherwise. */
  lemma AtMostOneWrite(threads: seq<Tables.ThreadRow>, comments: seq<Tables.CommentRow>,
                       threadId: string, commentId: string, userId: JsValue)
    ensures var steps := Checks(threads, comments, threadId, commentId, userId);
      Writes(Guarded(steps, [Call.DeleteCommentById(commentId)])) == if Run(steps).Pass? then 1 else 0
  {
    var steps := Checks(threads, comments, threadId, commentId, userId);
    GuardedWrites(steps, [Call.DeleteCommentById(commentId)]);
  }

  class DeleteCommentUseCase {
    const threadRepository: Threads.ThreadRepositoryPostgres
    const commentRepository: Comments.CommentRepositoryPostgres
    const journal: Journal

    predicate Valid() {
      threadRepository.journal == journal && commentRepository.journal == journal
    }

    constructor (commentRepository: Comments.CommentRepositoryPostgres, threadRepository: Threads.ThreadRepositoryPostgres)
      requires commentRepository.journal == threadRepository.journal
      ensures Valid() && journal == threadRepository.journal
      ensures this.threadRepository == threadRepository && this.commentRepository == commentRepository
    {
      this.threadRepository := threadRepository;
      this.commentRepository := commentRepository;
      this.journal := threadRepository.journal;
    }

    /**
     * `execute(useCaseAuth, useCaseParam)`: `userId` is the caller's id,
     * `now` the time the soft delete records. The second argument the
     * source passes to `deleteCommentById` is ignored by it.
     */
    method Execute(userId: JsValue, threadId: string, commentId: string, now: string) returns (r: Outcome<DomainError>)
      requires Valid() && commentRepository.Valid()
      modifies commentRepository, journal
      ensures commentRepository.Valid()
      ensures var steps := Checks(threadRepository.threads, old(commentRepository.comments), threadId, commentId, userId);
        && r == Run(steps)
        && journal.calls == old(journal.calls) + Guarded(steps, [Call.DeleteCommentById(commentId)])
        && commentRepository.comments
           == if r.Pass? then Comments.MarkDeleted(old(commentRepository.comments), commentId, now)
              else old(commentRepository.comments)
    {
      ghost var steps := Checks(threadRepository.threads, commentRepository.comments, threadId, commentId, userId);
      r := threadRepository.VerifyAvailableThread(Str(threadId));
      if r.Fail? {
        return;
      }
      PassedPrefix(steps, 1);
      r := commentRepository.VerifyAvailableComment(threadId, commentId);
      if r.Fail? {
        return;
      }
      PassedPrefix(steps, 2);
      r := commentRepository.VerifyCommentOwner(commentId, userId);
      if r.Fail? {
        return;
      }
      PassedPrefix(steps, 3);
      commentRepository.DeleteCommentById(commentId, now);
    }
  }
}

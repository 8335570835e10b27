/**
 * ToggleLikeUseCase: the thread must exist and the comment must be in it;
 * then the caller's like of the comment is toggled.
 */
module ToggleLikeUseCase {
  import opened Wrappers
  import opened JsValues
  import opened Errors
  import opened CallLog
  import opened Chain
  import Tables
  import Threads = ThreadRepository
  import Comments = CommentRepository
  import Likes = LikeRepository

  /** The checks `execute` runs before the toggle. */
  function Checks(threads: seq<Tables.ThreadRow>, comments: seq<Tables.CommentRow>, threadId: string, commentId: string): seq<Step> {
    [Step(Call.VerifyAvailableThread(Str(threadId)), Threads.ThreadCheck(threads, Str(threadId))),
     Step(Call.VerifyAvailableComment(threadId, commentId), Comments.ScopedCheck(comments, threadId, commentId))]
  }

  /** The toggle happens exactly when the thread exists and the comment is in it, and then it is the one write. */
  lemma ToggleIffChecksPass(threads: seq<Tables.ThreadRow>, comments: seq<Tables.CommentRow>,
                            threadId: string, commentId: string, ownerId: string)
    ensures var steps := Checks(threads, comments, threadId, commentId);
      && (Run(steps).Pass? <==> Threads.HasThread(threads, Str(threadId)) && Comments.HasCommentInThread(comments, threadId, commentId))
      && Writes(Guarded(steps, [Call.ToggleCommentLike(ownerId, commentId)])) == if Run(steps).Pass? then 1 else 0
  {
    var steps := Checks(threads, comments, threadId, commentId);
    RunPasses(steps);
    assert Run(steps).Pass? <==> steps[0].outcome.Pass? && steps[1].outcome.Pass?;
    GuardedWrites(steps, [Call.ToggleCommentLike(ownerId, commentId)]);
  }

  class ToggleLikeUseCase {
    const threadRepository: Threads.ThreadRepositoryPostgres
    const commentRepository: Comments.CommentRepositoryPostgres
    const likeRepository: Likes.LikeRepositoryPostgres
    const journal: Journal

    predicate Valid() {
      threadRepository.journal == journal && commentRepository.journal == journal && likeRepository.journal == journal
    }

    constructor (threadRepository: Threads.ThreadRepositoryPostgres, commentRepository: Comments.CommentRepositoryPostgres,
                 likeRepository: Likes.LikeRepositoryPostgres)
      requires commentRepository.journal == threadRepository.journal && likeRepository.journal == threadRepository.journal
      ensures Valid() && journal == threadRepository.journal
      ensures this.threadRepository == threadRepository && this.commentRepository == commentRepository
      ensures this.likeRepository == likeRepository
    {
      this.threadRepository := threadRepository;
      this.commentRepository := commentRepository;
      this.likeRepository := likeRepository;
      this.journal := threadRepository.journal;
    }

    /** `execute(useCaseAuth, useCaseParam)`: `ownerId` is the caller's id, `idSuffix` the id a new like would get. */
    method Execute(ownerId: string, threadId: string, commentId: string, idSuffix: string) returns (r: Outcome<DomainError>)
      requires Valid() && likeRepository.Valid()
      modifies likeRepository, journal
      ensures likeRepository.Valid()
      ensures var steps := Checks(threadRepository.threads, commentRepository.comments, threadId, commentId);
        && journal.calls == old(journal.calls) + Guarded(steps, [Call.ToggleCommentLike(ownerId, commentId)])
        && if Run(steps).Fail? then
             r == Run(steps) && likeRepository.likes == old(likeRepository.likes)
           else
             && likeRepository.likes == Likes.Toggled(old(likeRepository.likes), ownerId, commentId, idSuffix)
             && r == (if !Likes.Liked(old(likeRepository.likes), ownerId, commentId) && Likes.HasLikeId(old(likeRepository.likes), "like-" + idSuffix)
                      then Fail(DatabaseError(DuplicateKeyMessage)) else Pass)
             && (r.Pass? ==> Likes.Liked(likeRepository.likes, ownerId, commentId) == !Likes.Liked(old(likeRepository.likes), ownerId, commentId))
    {
      ghost var steps := Checks(threadRepository.threads, commentRepository.comments, threadId, commentId);
      r := threadRepository.VerifyAvailableThread(Str(threadId));
      if r.Fail? {
        return;
      }
      PassedPrefix(steps, 1);
      r := commentRepository.VerifyAvailableComment(threadId, commentId);
      if r.Fail? {
        return;
      }
      PassedPrefix(steps, 2);
      r := likeRepository.ToggleCommentLike(ownerId, commentId, idSuffix);
    }
  }
}

/**
 * LikeUseCase: the thread must exist and the comment must exist (in any
 * thread); then the caller's like is read, and removed when present or
 * added when absent.
 */
module LikeUseCase {
  import opened Wrappers
  import opened JsValues
  import opened Errors
  import opened CallLog
  import opened Chain
  import Tables
  import Threads = ThreadRepository
  import Comments = CommentRepository
  import Likes = LikeRepository

  /** The checks `execute` runs before it reads the like. */
  function Checks(threads: seq<Tables.ThreadRow>, comments: seq<Tables.CommentRow>, threadId: string, commentId: string): seq<Step> {
    [Step(Call.VerifyThreadAvailability(Str(threadId)), Threads.ThreadCheck(threads, Str(threadId))),
     Step(Call.VerifyCommentAvailability(commentId), Comments.AvailabilityCheck(comments, commentId))]
  }

  /** The read of the like state and the one write it leads to. */
  function Toggle(likes: seq<Tables.LikeRow>, ownerId: string, commentId: string): seq<Call> {
    [Call.VerifyLikeAvailability(ownerId, commentId),
     if Likes.Liked(likes, ownerId, commentId) then Call.DeleteLike(ownerId, commentId) else Call.AddLike(ownerId, commentId)]
  }

  /**
   * The like is toggled exactly when the thread exists and the comment
   * exists, in whichever thread; then exactly one write is made, a delete
   * for a liked comment and an insert otherwise.
   */
  lemma ToggleIffChecksPass(threads: seq<Tables.ThreadRow>, comments: seq<Tables.CommentRow>, likes: seq<Tables.LikeRow>,
                            threadId: string, commentId: string, ownerId: string)
    ensures var steps := Checks(threads, comments, threadId, commentId);
      && (Run(steps).Pass? <==> Threads.HasThread(threads, Str(threadId)) && Comments.HasComment(comments, commentId))
      && Writes(Guarded(steps, Toggle(likes, ownerId, commentId))) == if Run(steps).Pass? then 1 else 0
    ensures Call.DeleteLike(ownerId, commentId) in Toggle(likes, ownerId, commentId) <==> Likes.Liked(likes, ownerId, commentId)
    ensures Call.AddLike(ownerId, commentId) in Toggle(likes, ownerId, commentId) <==> !Likes.Liked(likes, ownerId, commentId)
  {
    var steps := Checks(threads, comments, threadId, commentId);
    RunPasses(steps);
    assert Run(steps).Pass? <==> steps[0].outcome.Pass? && steps[1].outcome.Pass?;
    GuardedWrites(steps, Toggle(likes, ownerId, commentId));
    var t := Toggle(likes, ownerId, commentId);
    assert Writes(t) == 1 by {
      assert t[1..] == [t[1]] && t[1..][1..] == [];
      assert Writes(t[1..]) == 1;
    }
  }

  class LikeUseCase {
    const likeRepository: Likes.LikeRepositoryPostgres
    const threadRepository: Threads.ThreadRepositoryPostgres
    const commentRepository: Comments.CommentRepositoryPostgres
    const journal: Journal

    predicate Valid() {
      threadRepository.journal == journal && commentRepository.journal == journal && likeRepository.journal == journal
    }

    constructor (likeRepository: Likes.LikeRepositoryPostgres, threadRepository: Threads.ThreadRepositoryPostgres,
                 commentRepository: Comments.CommentRepositoryPostgres)
      requires commentRepository.journal == likeRepository.journal && threadRepository.journal == likeRepository.journal
      ensures Valid() && journal == likeRepository.journal
      ensures this.threadRepository == threadRepository && this.commentRepository == commentRepository
      ensures this.likeRepository == likeRepository
    {
      this.likeRepository := likeRepository;
      this.threadRepository := threadRepository;
      this.commentRepository := commentRepository;
      this.journal := likeRepository.journal;
    }

    /**
     * `execute(ownerId, threadId, commentId)`. The result is what the
     * write returns: nothing for a delete, the new like's `{ id }` row,
     * kept as its id, for an insert.
     */
    method Execute(ownerId: string, threadId: string, commentId: string, idSuffix: string)
      returns (r: Result<Option<string>, DomainError>)
      requires Valid() && likeRepository.Valid()
      modifies likeRepository, journal
      ensures likeRepository.Valid()
      ensures var steps := Checks(threadRepository.threads, commentRepository.comments, threadId, commentId);
        && journal.calls == old(journal.calls) + Guarded(steps, Toggle(old(likeRepository.likes), ownerId, commentId))
        && if Run(steps).Fail? then
             r == Err(Run(steps).error) && likeRepository.likes == old(likeRepository.likes)
           else
             && likeRepository.likes == Likes.Toggled(old(likeRepository.likes), ownerId, commentId, idSuffix)
             && if Likes.Liked(old(likeRepository.likes), ownerId, commentId) then r == Ok(None)
                else if Likes.HasLikeId(old(likeRepository.likes), "like-" + idSuffix) then r == Err(DatabaseError(DuplicateKeyMessage))
                else r == Ok(Some("like-" + idSuffix))
    {
      ghost var steps := Checks(threadRepository.threads, commentRepository.comments, threadId, commentId);
      var check := threadRepository.VerifyThreadAvailability(Str(threadId));
      if check.Fail? {
        return Err(check.error);
      }
      PassedPrefix(steps, 1);
      check := commentRepository.VerifyCommentAvailability(commentId);
      if check.Fail? {
        return Err(check.error);
      }
      PassedPrefix(steps, 2);
      var isLiked := likeRepository.VerifyLikeAvailability(ownerId, commentId);
      if isLiked {
        likeRepository.DeleteLike(ownerId, commentId);
        return Ok(None);
      }
      var added := likeRepository.AddLike(ownerId, commentId, idSuffix);
      r := match added
        case Err(e) => Err(e)
        case Ok(id) => Ok(Some(id));
    }
  }
}

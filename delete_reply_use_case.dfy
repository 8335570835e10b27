/**
 * DeleteReplyUseCase: thread, comment in the thread, reply under the
 * comment, then the reply's owner are checked before the reply is
 * soft-deleted.
 */
module DeleteReplyUseCase {
  import opened Wrappers
  import opened JsValues
  import opened Errors
  import opened CallLog
  import opened Chain
  import Tables
  import Threads = ThreadRepository
  import Comments = CommentRepository
  import Replies = ReplyRepository

  /** The checks `execute` runs, in order, each with its outcome on the current tables. */
  function Checks(threads: seq<Tables.ThreadRow>, comments: seq<Tables.CommentRow>, replies: seq<Tables.ReplyRow>,
                  threadId: string, commentId: string, replyId: string, ownerId: JsValue): seq<Step>
  {
    [Step(Call.VerifyAvailableThread(Str(threadId)), Threads.ThreadCheck(threads, Str(threadId))),
     Step(Call.VerifyAvailableComment(threadId, commentId), Comments.ScopedCheck(comments, threadId, commentId)),
     Step(Call.VerifyAvailableReply(threadId, commentId, replyId), Replies.ScopedCheck(replies, commentId, replyId)),
     Step(Call.VerifyReplyOwner(replyId, ownerId), Replies.OwnerCheck(replies, replyId, ownerId))]
  }

  /**
   * The delete goes ahead exactly when the thread exists, the comment is
   * in it, and the caller owns a reply with that id under that comment.
   */
  lemma DeleteAllowedIff(threads: seq<Tables.ThreadRow>, comments: seq<Tables.CommentRow>, replies: seq<Tables.ReplyRow>,
                         threadId: string, commentId: string, replyId: string, ownerId: JsValue)
    requires Replies.UniqueIds(replies)
    ensures Run(Checks(threads, comments, replies, threadId, commentId, replyId, ownerId)).Pass? <==>
      && Threads.HasThread(threads, Str(threadId))
      && Comments.HasCommentInThread(comments, threadId, commentId)
      && exists row | row in replies :: row.id == replyId && row.commentId == commentId && Str(row.owner) == ownerId
  {
    var steps := Checks(threads, comments, replies, threadId, commentId, replyId, ownerId);
    RunPasses(steps);
    assert Run(steps).Pass? <==>
      steps[0].outcome.Pass? && steps[1].outcome.Pass? && steps[2].outcome.Pass? && steps[3].outcome.Pass?;
    if Replies.HasReplyOnComment(replies, commentId, replyId) {
      var row :| row in replies && row.id == replyId && row.commentId == commentId;
      Replies.OwnerCheckAgainstStoredOwner(replies, row, ownerId);
      forall other | other in replies && other.id == replyId ensures other == row {
        Replies.FirstReplyIsTheRow(replies, other);
        Replies.FirstReplyIsTheRow(replies, row);
      }
    }
  }

  /** A missing thread is reported as such, and no other call is made. */
  lemma MissingThreadStopsTheChain(threads: seq<Tables.ThreadRow>, comments: seq<Tables.CommentRow>, replies: seq<Tables.ReplyRow>,
                                   threadId: string, commentId: string, replyId: string, ownerId: JsValue)
    requires !Threads.HasThread(threads, Str(threadId))
    ensures var steps := Checks(threads, comments, replies, threadId, commentId, replyId, ownerId);
      && Run(steps) == Fail(NotFoundError(Threads.ThreadNotFoundMessage))
      && CallsMade(steps) == [Call.VerifyAvailableThread(Str(threadId))]
  {
    RunStopsAtFirstFailure(Checks(threads, comments, replies, threadId, commentId, replyId, ownerId), 0);
  }

  /** A comment missing from the thread stops the chain before the reply and owner checks. */
  lemma MissingCommentStopsTheChain(threads: seq<Tables.ThreadRow>, comments: seq<Tables.CommentRow>, replies: seq<Tables.ReplyRow>,
                                    threadId: string, commentId: string, replyId: string, ownerId: JsValue)
    requires Threads.HasThread(threads, Str(threadId)) && !Comments.HasCommentInThread(comments, threadId, commentId)
    ensures var steps := Checks(threads, comments, replies, threadId, commentId, replyId, ownerId);
      && Run(steps) == Fail(NotFoundError(Comments.CommentNotFoundMessage))
      && CallsMade(steps) == [Call.VerifyAvailableThread(Str(threadId)), Call.VerifyAvailableComment(threadId, commentId)]
  {
    var steps := Checks(threads, comments, replies, threadId, commentId, replyId, ownerId);
    RunStopsAtFirstFailure(steps, 1);
    assert steps[..2] == [steps[0], steps[1]];
  }

  /**
   * A reply that is absent, or that hangs under another comment, is
   * NotFound whoever asks: existence is checked before ownership.
   */
  lemma MisplacedReplyIsNotFound(threads: seq<Tables.ThreadRow>, comments: seq<Tables.CommentRow>, replies: seq<Tables.ReplyRow>,
                                 threadId: string, commentId: string, replyId: string, ownerId: JsValue)
    requires Threads.HasThread(threads, Str(threadId)) && Comments.HasCommentInThread(comments, threadId, commentId)
    requires !Replies.HasReplyOnComment(replies, commentId, replyId)
    ensures Run(Checks(threads, comments, replies, threadId, commentId, replyId, ownerId))
         == Fail(NotFoundError(Replies.ReplyNotFoundMessage))
  {
    RunStopsAtFirstFailure(Checks(threads, comments, replies, threadId, commentId, replyId, ownerId), 2);
  }

  /** The use case writes once when the checks pass and never otherwise. */
  lemma AtMostOneWrite(threads: seq<Tables.ThreadRow>, comments: seq<Tables.CommentRow>, replies: seq<Tables.ReplyRow>,
                       threadId: string, commentId: string, replyId: string, ownerId: JsValue)
    ensures var steps := Checks(threads, comments, replies, threadId, commentId, replyId, ownerId);
      Writes(Guarded(steps, [Call.DeleteReplyById(replyId)])) == if Run(steps).Pass? then 1 else 0
  {
    GuardedWrites(Checks(threads, comments, replies, threadId, commentId, replyId, ownerId), [Call.DeleteReplyById(replyId)]);
  }

  class DeleteReplyUseCase {
    const replyRepository: Replies.ReplyRepositoryPostgres
    const commentRepository: Comments.CommentRepositoryPostgres
    const threadRepository: Threads.ThreadRepositoryPostgres
    const journal: Journal

    predicate Valid() {
      replyRepository.journal == journal && commentRepository.journal == journal && threadRepository.journal == journal
    }

    constructor (replyRepository: Replies.ReplyRepositoryPostgres, commentRepository: Comments.CommentRepositoryPostgres,
                 threadRepository: Threads.ThreadRepositoryPostgres)
      requires commentRepository.journal == replyRepository.journal && threadRepository.journal == replyRepository.journal
      ensures Valid() && journal == replyRepository.journal
      ensures this.replyRepository == replyRepository && this.commentRepository == commentRepository
      ensures this.threadRepository == threadRepository
    {
      this.replyRepository := replyRepository;
      this.commentRepository := commentRepository;
      this.threadRepository := threadRepository;
      this.journal := replyRepository.journal;
    }

    /** `execute(useCaseAuth, useCaseParam)`: `ownerId` is the caller's id, `now` the time the soft delete records. */
    method Execute(ownerId: JsValue, threadId: string, commentId: string, replyId: string, now: string)
      returns (r: Outcome<DomainError>)
      requires Valid() && replyRepository.Valid()
      modifies replyRepository, journal
      ensures replyRepository.Valid()
      ensures var steps := Checks(threadRepository.threads, commentRepository.comments, old(replyRepository.replies),
                                  threadId, commentId, replyId, ownerId);
        && r == Run(steps)
        && journal.calls == old(journal.calls) + Guarded(steps, [Call.DeleteReplyById(replyId)])
        && replyRepository.replies
           == if r.Pass? then Replies.MarkDeleted(old(replyRepository.replies), replyId, now)
              else old(replyRepository.replies)
    {
      ghost var steps := Checks(threadRepository.threads, commentRepository.comments, replyRepository.replies,
                                threadId, commentId, replyId, ownerId);
      r := threadRepository.VerifyAvailableThread(Str(threadId));
      if r.Fail? {
        return;
      }
      PassedPrefix(steps, 1);
      r := commentRepository.VerifyAvailableComment(threadId, commentId);
      if r.Fail? {
        return;
      }
      PassedPrefix(steps, 2);
      r := replyRepository.VerifyAvailableReply(threadId, commentId, replyId);
      if r.Fail? {
        return;
      }
      PassedPrefix(steps, 3);
      r := replyRepository.VerifyReplyOwner(replyId, ownerId);
      if r.Fail? {
        return;
      }
      PassedPrefix(steps, 4);
      replyRepository.DeleteReplyById(replyId, now);
    }
  }
}

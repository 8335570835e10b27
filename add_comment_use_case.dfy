/**
 * AddCommentUseCase: the thread must exist; then the comment, owned by the
 * caller and placed in the thread, is stored.
 */
module AddCommentUseCase {
  import opened Wrappers
  import opened JsValues
  import opened Errors
  import opened CallLog
  import opened Entities
  import Tables
  import Threads = ThreadRepository
  import Comments = CommentRepository

  class AddCommentUseCase {
    const commentRepository: Comments.CommentRepositoryPostgres
    const threadRepository: Threads.ThreadRepositoryPostgres
    const journal: Journal

    predicate Valid() {
      commentRepository.journal == journal && threadRepository.journal == journal
    }

    constructor (commentRepository: Comments.CommentRepositoryPostgres, threadRepository: Threads.ThreadRepositoryPostgres)
      requires commentRepository.journal == threadRepository.journal
      ensures Valid() && journal == commentRepository.journal
      ensures this.commentRepository == commentRepository && this.threadRepository == threadRepository
    {
      this.commentRepository := commentRepository;
      this.threadRepository := threadRepository;
      this.journal := commentRepository.journal;
    }

    /**
     * `execute(useCasePayload, useCaseAuth, useCaseParam)`. `content` is
     * what `new AddComment({ owner: id, thread: threadId, content })`
     * yields: its content, or the error it throws. The row is owned by the
     * caller and placed in the thread of the route.
     */
    method Execute(content: Result<string, DomainError>, ownerId: string, threadId: string, idSuffix: string, now: string)
      returns (r: Result<AddedComment, DomainError>)
      requires Valid() && commentRepository.Valid()
      modifies commentRepository, journal
      ensures commentRepository.Valid()
      ensures !Threads.HasThread(threadRepository.threads, Str(threadId)) ==>
        && r == Err(NotFoundError(Threads.ThreadNotFoundMessage))
        && journal.calls == old(journal.calls) + [Call.VerifyAvailableThread(Str(threadId))]
        && commentRepository.comments == old(commentRepository.comments)
      ensures Threads.HasThread(threadRepository.threads, Str(threadId)) && content.Err? ==>
        && r == Err(content.error)
        && journal.calls == old(journal.calls) + [Call.VerifyAvailableThread(Str(threadId))]
        && commentRepository.comments == old(commentRepository.comments)
      ensures Threads.HasThread(threadRepository.threads, Str(threadId)) && content.Ok? ==>
        var id := "comment-" + idSuffix;
        && journal.calls == old(journal.calls) + [Call.VerifyAvailableThread(Str(threadId))]
           + [Call.AddComment(content.value, ownerId, threadId)]
        && if Comments.HasComment(old(commentRepository.comments), id) then
             r == Err(DatabaseError(DuplicateKeyMessage)) && commentRepository.comments == old(commentRepository.comments)
           else
             && r == Ok(AddedComment(id, content.value, ownerId))
             && commentRepository.comments == old(commentRepository.comments)
                + [Tables.CommentRow(id, content.value, ownerId, threadId, now, None)]
    {
      var check := threadRepository.VerifyAvailableThread(Str(threadId));
      if check.Fail? {
        return Err(check.error);
      }
      if content.Err? {
        return Err(content.error);
      }
      r := commentRepository.AddComment(content.value, ownerId, threadId, idSuffix, now);
    }
  }
}

/** AddThreadUseCase: the caller's thread is stored at once, with no check before the write. */
module AddThreadUseCase {
  import opened Wrappers
  import opened JsValues
  import opened Errors
  import opened CallLog
  import opened Entities
  import Tables
  import Threads = ThreadRepository

  /** The title and body that `new AddThread(...)` keeps. */
  datatype ThreadText = ThreadText(title: string, body: string)

  class AddThreadUseCase {
    const threadRepository: Threads.ThreadRepositoryPostgres

    constructor (threadRepository: Threads.ThreadRepositoryPostgres)
      ensures this.threadRepository == threadRepository
    {
      this.threadRepository := threadRepository;
    }

    /**
     * `execute(useCasePayload, useCaseAuth)`. `ownerId` is the caller's
     * id; `text` is what `new AddThread({ owner: id, title, body })` yields:
     * the payload's title and body, or the error it throws. The
     * repository's answer is returned as it is.
     */
    method Execute(text: Result<ThreadText, DomainError>, ownerId: string, idSuffix: string, now: string)
      returns (r: Result<AddedThread, DomainError>)
      requires threadRepository.Valid()
      modifies threadRepository, threadRepository.journal
      ensures threadRepository.Valid()
      ensures text.Err? ==>
        && r == Err(text.error)
        && threadRepository.journal.calls == old(threadRepository.journal.calls)
        && threadRepository.threads == old(threadRepository.threads)
      ensures text.Ok? ==>
        var id := "thread-" + idSuffix;
        && threadRepository.journal.calls
           == old(threadRepository.journal.calls) + [Call.AddThread(text.value.title, text.value.body, ownerId)]
        && if Threads.HasThread(old(threadRepository.threads), Str(id)) then
             r == Err(DatabaseError(DuplicateKeyMessage)) && threadRepository.threads == old(threadRepository.threads)
           else
             && r == Ok(AddedThread(id, ownerId, text.value.title))
             && threadRepository.threads
                == old(threadRepository.threads) + [Tables.ThreadRow(id, text.value.title, text.value.body, ownerId, now)]
    {
      if text.Err? {
        return Err(text.error);
      }
      r := threadRepository.AddThread(Entities.AddThread(ownerId, text.value.title, text.value.body), idSuffix, now);
    }
  }
}

/**
 * ThreadRepositoryPostgres: the threads table, joined with users when a
 * thread is read back. The id generator's output and the insertion time are
 * parameters of `AddThread`.
 */
module ThreadRepository {
  import opened Wrappers
  import opened JsValues
  import opened Errors
  import opened Tables
  import opened CallLog
  import opened Entities

  const ThreadNotFoundMessage := "Thread not found"

  /** Some row of the table has this id (`WHERE id = $1` finds a row). */
  predicate HasThread(threads: seq<ThreadRow>, threadId: JsValue) {
    exists row | row in threads :: Str(row.id) == threadId
  }

  /** The primary key: no two rows share an id. */
  predicate UniqueIds(threads: seq<ThreadRow>) {
    forall i, j | 0 <= i < j < |threads| :: threads[i].id != threads[j].id
  }

  /** The outcome of the availability check on the given table. */
  function ThreadCheck(threads: seq<ThreadRow>, threadId: JsValue): Outcome<DomainError> {
    if HasThread(threads, threadId) then Pass else Fail(NotFoundError(ThreadNotFoundMessage))
  }

  /** One row of `threads JOIN users`: id, username, title, body, date. */
  function ThreadObject(row: ThreadRow, users: Usernames): Payload
    requires row.owner in users
  {
    map["id" := Str(row.id), "username" := Str(users[row.owner]), "title" := Str(row.title),
        "body" := Str(row.body), "date" := Str(row.createdAt)]
  }

  /** `rows[0]` of the join for this id: the first row with that id whose owner is a user. */
  function FindThread(threads: seq<ThreadRow>, users: Usernames, threadId: JsValue): (r: Option<Payload>)
    ensures r.Some? ==> HasThread(threads, threadId) && Field(r.value, "id") == threadId
    ensures r.None? <==> forall row | row in threads && Str(row.id) == threadId :: row.owner !in users
  {
    if threads == [] then None
    else if Str(threads[0].id) == threadId && threads[0].owner in users then Some(ThreadObject(threads[0], users))
    else
      var r := FindThread(threads[1..], users, threadId);
      assert forall row | row in threads :: row == threads[0] || row in threads[1..];
      r
  }

  /** A thread just inserted under a fresh id is the one read back by that id. */
  lemma {:induction false} InsertedThreadIsFound(threads: seq<ThreadRow>, users: Usernames, row: ThreadRow)
    requires !HasThread(threads, Str(row.id)) && row.owner in users
    ensures FindThread(threads + [row], users, Str(row.id)) == Some(ThreadObject(row, users))
  {
    if threads != [] {
      assert threads[0] in threads;
      assert (threads + [row])[1..] == threads[1..] + [row];
      InsertedThreadIsFound(threads[1..], users, row);
    }
  }

  /** The rows found for an id never change by inserting a row with another id. */
  lemma {:induction false} InsertKeepsOtherThreads(threads: seq<ThreadRow>, users: Usernames, row: ThreadRow, threadId: JsValue)
    requires Str(row.id) != threadId
    ensures FindThread(threads + [row], users, threadId) == FindThread(threads, users, threadId)
    ensures HasThread(threads + [row], threadId) == HasThread(threads, threadId)
  {
    if threads != [] {
      assert (threads + [row])[1..] == threads[1..] + [row];
      InsertKeepsOtherThreads(threads[1..], users, row, threadId);
    }
    assert forall r | r in threads + [row] :: r in threads || r == row;
  }

  class ThreadRepositoryPostgres {
    var threads: seq<ThreadRow>
    const usernames: Usernames
    const journal: Journal

    predicate Valid()
      reads this
    {
      UniqueIds(threads)
    }

    constructor (usernames: Usernames, journal: Journal)
      ensures Valid() && threads == []
      ensures this.usernames == usernames && this.journal == journal
    {
      threads := [];
      this.usernames := usernames;
      this.journal := journal;
    }

    /**
     * INSERT a row with id `thread-<suffix>`; returns id, owner and title.
     * An id already in the table violates the primary key: the insert fails
     * and the table is unchanged.
     */
    method AddThread(thread: AddThread, idSuffix: string, now: string) returns (r: Result<AddedThread, DomainError>)
      requires Valid()
      modifies this, journal
      ensures Valid()
      ensures journal.calls == old(journal.calls) + [Call.AddThread(thread.title, thread.body, thread.owner)]
      ensures var id := "thread-" + idSuffix;
        if HasThread(old(threads), Str(id)) then
          r == Err(DatabaseError(DuplicateKeyMessage)) && threads == old(threads)
        else
          r == Ok(AddedThread(id, thread.owner, thread.title))
          && threads == old(threads) + [ThreadRow(id, thread.title, thread.body, thread.owner, now)]
    {
      journal.calls := journal.calls + [Call.AddThread(thread.title, thread.body, thread.owner)];
      var id := "thread-" + idSuffix;
      if HasThread(threads, Str(id)) {
        r := Err(DatabaseError(DuplicateKeyMessage));
      } else {
        var row := ThreadRow(id, thread.title, thread.body, thread.owner, now);
        assert forall i | 0 <= i < |threads| :: threads[i] in threads;
        threads := threads + [row];
        r := Ok(AddedThread(id, thread.owner, thread.title));
      }
    }

    /** `SELECT id ... WHERE id = $1`; no row raises NotFoundError. */
    method VerifyAvailableThread(threadId: JsValue) returns (r: Outcome<DomainError>)
      modifies journal
      ensures journal.calls == old(journal.calls) + [Call.VerifyAvailableThread(threadId)]
      ensures r.Pass? <==> HasThread(threads, threadId)
      ensures r == ThreadCheck(threads, threadId)
    {
      journal.calls := journal.calls + [Call.VerifyAvailableThread(threadId)];
      r := ThreadCheck(threads, threadId);
    }

    /**
     * The availability check under the name the later use cases call; it is
     * not defined in the repository class, and is taken to behave as
     * `VerifyAvailableThread`.
     */
    method VerifyThreadAvailability(threadId: JsValue) returns (r: Outcome<DomainError>)
      modifies journal
      ensures journal.calls == old(journal.calls) + [Call.VerifyThreadAvailability(threadId)]
      ensures r.Pass? <==> HasThread(threads, threadId)
      ensures r == ThreadCheck(threads, threadId)
    {
      journal.calls := journal.calls + [Call.VerifyThreadAvailability(threadId)];
      r := ThreadCheck(threads, threadId);
    }

    /** The joined row for the id, or nothing (`rows[0]` of an empty result). */
    method GetThreadById(threadId: JsValue) returns (r: Option<Payload>)
      modifies journal
      ensures journal.calls == old(journal.calls) + [Call.GetThreadById(threadId)]
      ensures r == FindThread(threads, usernames, threadId)
    {
      journal.calls := journal.calls + [Call.GetThreadById(threadId)];
      r := FindThread(threads, usernames, threadId);
    }
  }
}

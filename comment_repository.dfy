/**
 * CommentRepositoryPostgres: the comments table with soft deletion through
 * `deleted_at`, read back through a LEFT JOIN with users. The generated id
 * suffix and the current time are parameters.
 */
module CommentRepository {
  import opened Wrappers
  import opened JsValues
  import opened Errors
  import opened Tables
  import opened CallLog
  import opened Entities

  const CommentNotFoundMessage := "comment tidak ditemukan"
  /** What reading `owner` of `rows[0]` throws when no row was found. */
  const OwnerOfUndefinedMessage := "Cannot read properties of undefined (reading 'owner')"

  predicate HasComment(comments: seq<CommentRow>, commentId: string) {
    exists row | row in comments :: row.id == commentId
  }

  /** Some comment has this id and belongs to this thread. */
  predicate HasCommentInThread(comments: seq<CommentRow>, threadId: string, commentId: string) {
    exists row | row in comments :: row.id == commentId && row.threadId == threadId
  }

  predicate UniqueIds(comments: seq<CommentRow>) {
    forall i, j | 0 <= i < j < |comments| :: comments[i].id != comments[j].id
  }

  /** `SELECT * ... WHERE id = $1` then `rows[0]`: the first row with that id. */
  function FirstComment(comments: seq<CommentRow>, commentId: string): (r: Option<CommentRow>)
    ensures r.Some? ==> r.value in comments && r.value.id == commentId
    ensures r.None? <==> !HasComment(comments, commentId)
  {
    if comments == [] then None
    else if comments[0].id == commentId then Some(comments[0])
    else
      var r := FirstComment(comments[1..], commentId);
      assert forall row | row in comments :: row == comments[0] || row in comments[1..];
      r
  }

  /** Under the primary key, the first row with an id is the row with that id. */
  lemma FirstCommentIsTheRow(comments: seq<CommentRow>, row: CommentRow)
    requires UniqueIds(comments) && row in comments
    ensures FirstComment(comments, row.id) == Some(row)
  {
    var first := FirstComment(comments, row.id).value;
    var i :| 0 <= i < |comments| && comments[i] == first;
    var j :| 0 <= j < |comments| && comments[j] == row;
  }

  function AvailabilityCheck(comments: seq<CommentRow>, commentId: string): Outcome<DomainError> {
    if HasComment(comments, commentId) then Pass else Fail(NotFoundError(CommentNotFoundMessage))
  }

  function ScopedCheck(comments: seq<CommentRow>, threadId: string, commentId: string): Outcome<DomainError> {
    if HasCommentInThread(comments, threadId, commentId) then Pass else Fail(NotFoundError(CommentNotFoundMessage))
  }

  /** `comment.owner !== userId` on the first row, which crashes when there is none. */
  function OwnerCheck(comments: seq<CommentRow>, commentId: string, userId: JsValue): Outcome<DomainError> {
    match FirstComment(comments, commentId)
    case None => Fail(TypeError(OwnerOfUndefinedMessage))
    case Some(row) => if Str(row.owner) != userId then Fail(AuthorizationError(ForbiddenMessage)) else Pass
  }

  /** For a stored comment, the owner check fails exactly for someone other than its owner. */
  lemma OwnerCheckAgainstStoredOwner(comments: seq<CommentRow>, row: CommentRow, userId: JsValue)
    requires UniqueIds(comments) && row in comments
    ensures OwnerCheck(comments, row.id, userId).Pass? <==> userId == Str(row.owner)
    ensures OwnerCheck(comments, row.id, userId).Fail? ==>
      OwnerCheck(comments, row.id, userId) == Fail(AuthorizationError(ForbiddenMessage))
  {
    FirstCommentIsTheRow(comments, row);
  }

  /** One row of `comments LEFT JOIN users`: id, username (null without a user), date, content, deletedAt. */
  function CommentObject(row: CommentRow, users: Usernames): Payload {
    map["id" := Str(row.id),
        "username" := (if row.owner in users then Str(users[row.owner]) else Null),
        "date" := Str(row.createdAt),
        "content" := Str(row.content),
        "deletedAt" := (if row.deletedAt.Some? then Str(row.deletedAt.value) else Null)]
  }

  /** The rows of the thread, in table order, as the query shapes them. */
  function CommentsOfThread(comments: seq<CommentRow>, users: Usernames, threadId: JsValue): (r: seq<Payload>)
    ensures |r| <= |comments|
    ensures forall p | p in r :: exists row | row in comments :: Str(row.threadId) == threadId && p == CommentObject(row, users)
  {
    if comments == [] then []
    else
      var rest := CommentsOfThread(comments[1..], users, threadId);
      assert forall row | row in comments[1..] :: row in comments;
      if Str(comments[0].threadId) == threadId then [CommentObject(comments[0], users)] + rest else rest
  }

  /** Every comment of the thread is among the rows returned. */
  lemma {:induction false} CommentsOfThreadComplete(comments: seq<CommentRow>, users: Usernames, row: CommentRow)
    requires row in comments
    ensures CommentObject(row, users) in CommentsOfThread(comments, users, Str(row.threadId))
  {
    if comments[0] != row {
      CommentsOfThreadComplete(comments[1..], users, row);
    }
  }

  /** `UPDATE comments SET deleted_at = now WHERE id = commentId`. */
  function MarkDeleted(comments: seq<CommentRow>, commentId: string, now: string): seq<CommentRow> {
    if comments == [] then []
    else
      var row := comments[0];
      [if row.id == commentId then row.(deletedAt := Some(now)) else row] + MarkDeleted(comments[1..], commentId, now)
  }

  /** The soft delete sets the marker on the rows with that id and changes nothing else. */
  lemma {:induction false} MarkDeletedChangesOnlyMarker(comments: seq<CommentRow>, commentId: string, now: string)
    ensures var after := MarkDeleted(comments, commentId, now);
      |after| == |comments|
      && forall i | 0 <= i < |comments| ::
        after[i] == (if comments[i].id == commentId then comments[i].(deletedAt := Some(now)) else comments[i])
  {
    if comments != [] {
      MarkDeletedChangesOnlyMarker(comments[1..], commentId, now);
    }
  }

  /** Deleting an id no row has changes nothing. */
  lemma MarkDeletedAbsentIsNoOp(comments: seq<CommentRow>, commentId: string, now: string)
    requires !HasComment(comments, commentId)
    ensures MarkDeleted(comments, commentId, now) == comments
  {
    MarkDeletedChangesOnlyMarker(comments, commentId, now);
    assert forall i | 0 <= i < |comments| :: comments[i] in comments;
  }

  /** A soft-deleted comment is still there, in the same thread, with the same owner. */
  lemma MarkDeletedKeepsChecks(comments: seq<CommentRow>, commentId: string, now: string, threadId: string, id: string)
    ensures HasComment(MarkDeleted(comments, commentId, now), id) == HasComment(comments, id)
    ensures HasCommentInThread(MarkDeleted(comments, commentId, now), threadId, id)
         == HasCommentInThread(comments, threadId, id)
  {
    var after := MarkDeleted(comments, commentId, now);
    MarkDeletedChangesOnlyMarker(comments, commentId, now);
    assert forall row | row in comments :: exists i | 0 <= i < |comments| :: comments[i] == row;
    assert forall row | row in after :: exists i | 0 <= i < |after| :: after[i] == row;
    if HasComment(comments, id) {
      var row :| row in comments && row.id == id;
      var i :| 0 <= i < |comments| && comments[i] == row;
      assert after[i] in after;
    }
    if HasCommentInThread(comments, threadId, id) {
      var row :| row in comments && row.id == id && row.threadId == threadId;
      var i :| 0 <= i < |comments| && comments[i] == row;
      assert after[i] in after;
    }
  }

  class CommentRepositoryPostgres {
    var comments: seq<CommentRow>
    const usernames: Usernames
    const journal: Journal

    predicate Valid()
      reads this
    {
      UniqueIds(comments)
    }

    constructor (usernames: Usernames, journal: Journal)
      ensures Valid() && comments == []
      ensures this.usernames == usernames && this.journal == journal
    {
      comments := [];
      this.usernames := usernames;
      this.journal := journal;
    }

    /**
     * INSERT a row `comment-<suffix>` with no deletion marker; returns id,
     * content and owner. An id already in the table fails the insert.
     */
    method AddComment(content: string, ownerId: string, threadId: string, idSuffix: string, now: string)
      returns (r: Result<AddedComment, DomainError>)
      requires Valid()
      modifies this, journal
      ensures Valid()
      ensures journal.calls == old(journal.calls) + [Call.AddComment(content, ownerId, threadId)]
      ensures var id := "comment-" + idSuffix;
        if HasComment(old(comments), id) then
          r == Err(DatabaseError(DuplicateKeyMessage)) && comments == old(comments)
        else
          r == Ok(AddedComment(id, content, ownerId))
          && comments == old(comments) + [CommentRow(id, content, ownerId, threadId, now, None)]
    {
      journal.calls := journal.calls + [Call.AddComment(content, ownerId, threadId)];
      var id := "comment-" + idSuffix;
      if HasComment(comments, id) {
        r := Err(DatabaseError(DuplicateKeyMessage));
      } else {
        assert forall i | 0 <= i < |comments| :: comments[i] in comments;
        comments := comments + [CommentRow(id, content, ownerId, threadId, now, None)];
        r := Ok(AddedComment(id, content, ownerId));
      }
    }

    /** The thread's comments, with no ORDER BY: some arrangement of them. */
    method GetCommentsByThreadId(threadId: JsValue) returns (rows: seq<Payload>)
      modifies journal
      ensures journal.calls == old(journal.calls) + [Call.GetCommentsByThreadId(threadId)]
      ensures multiset(rows) == multiset(CommentsOfThread(comments, usernames, threadId))
    {
      journal.calls := journal.calls + [Call.GetCommentsByThreadId(threadId)];
      rows := CommentsOfThread(comments, usernames, threadId);
    }

    /** Soft delete: only `deleted_at` of the rows with that id changes. */
    method DeleteCommentById(commentId: string, now: string)
      requires Valid()
      modifies this, journal
      ensures Valid()
      ensures journal.calls == old(journal.calls) + [Call.DeleteCommentById(commentId)]
      ensures comments == MarkDeleted(old(comments), commentId, now)
    {
      journal.calls := journal.calls + [Call.DeleteCommentById(commentId)];
      MarkDeletedChangesOnlyMarker(comments, commentId, now);
      comments := MarkDeleted(comments, commentId, now);
    }

    method VerifyCommentOwner(commentId: string, userId: JsValue) returns (r: Outcome<DomainError>)
      modifies journal
      ensures journal.calls == old(journal.calls) + [Call.VerifyCommentOwner(commentId, userId)]
      ensures r == OwnerCheck(comments, commentId, userId)
    {
      journal.calls := journal.calls + [Call.VerifyCommentOwner(commentId, userId)];
      r := OwnerCheck(comments, commentId, userId);
    }

    /** NotFoundError exactly when no comment, in any thread, has the id. */
    method VerifyCommentAvailability(commentId: string) returns (r: Outcome<DomainError>)
      modifies journal
      ensures journal.calls == old(journal.calls) + [Call.VerifyCommentAvailability(commentId)]
      ensures r.Pass? <==> HasComment(comments, commentId)
      ensures r == AvailabilityCheck(comments, commentId)
    {
      journal.calls := journal.calls + [Call.VerifyCommentAvailability(commentId)];
      r := AvailabilityCheck(comments, commentId);
    }

    /**
     * The thread-scoped check the older use cases call; it is not defined in
     * the repository class. It fails exactly when no comment with that id
     * belongs to that thread.
     */
    method VerifyAvailableComment(threadId: string, commentId: string) returns (r: Outcome<DomainError>)
      modifies journal
      ensures journal.calls == old(journal.calls) + [Call.VerifyAvailableComment(threadId, commentId)]
      ensures r.Pass? <==> HasCommentInThread(comments, threadId, commentId)
      ensures r == ScopedCheck(comments, threadId, commentId)
    {
      journal.calls := journal.calls + [Call.VerifyAvailableComment(threadId, commentId)];
      r := ScopedCheck(comments, threadId, commentId);
    }
  }
}

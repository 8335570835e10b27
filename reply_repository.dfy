/**
 * ReplyRepositoryPostgres: the replies table with soft deletion through
 * `deleted_at`. Replies are read back for a list of comment ids, joined
 * with users and ordered by creation time.
 */
module ReplyRepository {
  import opened Wrappers
  import opened JsValues
  import opened Errors
  import opened Tables
  import opened CallLog
  import opened Entities

  const ReplyNotFoundMessage := "reply tidak ditemukan"
  /** What reading `owner` of `rows[0]` throws when no row was found. */
  const OwnerOfUndefinedMessage := "Cannot read properties of undefined (reading 'owner')"

  predicate HasReply(replies: seq<ReplyRow>, replyId: string) {
    exists row | row in replies :: row.id == replyId
  }

  /** Some reply has this id and answers this comment. */
  predicate HasReplyOnComment(replies: seq<ReplyRow>, commentId: string, replyId: string) {
    exists row | row in replies :: row.id == replyId && row.commentId == commentId
  }

  predicate UniqueIds(replies: seq<ReplyRow>) {
    forall i, j | 0 <= i < j < |replies| :: replies[i].id != replies[j].id
  }

  /** `rows[0]` of `SELECT * ... WHERE id = $1`. */
  function FirstReply(replies: seq<ReplyRow>, replyId: string): (r: Option<ReplyRow>)
    ensures r.Some? ==> r.value in replies && r.value.id == replyId
    ensures r.None? <==> !HasReply(replies, replyId)
  {
    if replies == [] then None
    else if replies[0].id == replyId then Some(replies[0])
    else
      var r := FirstReply(replies[1..], replyId);
      assert forall row | row in replies :: row == replies[0] || row in replies[1..];
      r
  }

  lemma FirstReplyIsTheRow(replies: seq<ReplyRow>, row: ReplyRow)
    requires UniqueIds(replies) && row in replies
    ensures FirstReply(replies, row.id) == Some(row)
  {
    var first := FirstReply(replies, row.id).value;
    var i :| 0 <= i < |replies| && replies[i] == first;
    var j :| 0 <= j < |replies| && replies[j] == row;
  }

  function AvailabilityCheck(replies: seq<ReplyRow>, replyId: string): Outcome<DomainError> {
    if HasReply(replies, replyId) then Pass else Fail(NotFoundError(ReplyNotFoundMessage))
  }

  function ScopedCheck(replies: seq<ReplyRow>, commentId: string, replyId: string): Outcome<DomainError> {
    if HasReplyOnComment(replies, commentId, replyId) then Pass else Fail(NotFoundError(ReplyNotFoundMessage))
  }

  /** `reply.owner !== userId` on the first row, which crashes when there is none. */
  function OwnerCheck(replies: seq<ReplyRow>, replyId: string, userId: JsValue): Outcome<DomainError> {
    match FirstReply(replies, replyId)
    case None => Fail(TypeError(OwnerOfUndefinedMessage))
    case Some(row) => if Str(row.owner) != userId then Fail(AuthorizationError(ForbiddenMessage)) else Pass
  }

  /** For a stored reply, the owner check fails exactly for someone other than its owner. */
  lemma OwnerCheckAgainstStoredOwner(replies: seq<ReplyRow>, row: ReplyRow, userId: JsValue)
    requires UniqueIds(replies) && row in replies
    ensures OwnerCheck(replies, row.id, userId).Pass? <==> userId == Str(row.owner)
    ensures OwnerCheck(replies, row.id, userId).Fail? ==>
      OwnerCheck(replies, row.id, userId) == Fail(AuthorizationError(ForbiddenMessage))
  {
    FirstReplyIsTheRow(replies, row);
  }

  /** One row of `replies JOIN users`: id, username, commentId, date, content, deletedAt. */
  function ReplyObject(row: ReplyRow, users: Usernames): Payload
    requires row.owner in users
  {
    map["id" := Str(row.id),
        "username" := Str(users[row.owner]),
        "commentId" := Str(row.commentId),
        "date" := Str(row.createdAt),
        "content" := Str(row.content),
        "deletedAt" := (if row.deletedAt.Some? then Str(row.deletedAt.value) else Null)]
  }

  /** The replies to any of the comments whose owner is a user, in table order. */
  function RepliesFor(replies: seq<ReplyRow>, users: Usernames, commentIds: seq<JsValue>): (r: seq<Payload>)
    ensures forall p | p in r :: exists row | row in replies ::
      Str(row.commentId) in commentIds && row.owner in users && p == ReplyObject(row, users)
  {
    if replies == [] then []
    else
      var rest := RepliesFor(replies[1..], users, commentIds);
      assert forall row | row in replies[1..] :: row in replies;
      var row := replies[0];
      if Str(row.commentId) in commentIds && row.owner in users then [ReplyObject(row, users)] + rest else rest
  }

  /** Every reply to a listed comment by a known user is among the rows. */
  lemma {:induction false} RepliesForComplete(replies: seq<ReplyRow>, users: Usernames, commentIds: seq<JsValue>, row: ReplyRow)
    requires row in replies && Str(row.commentId) in commentIds && row.owner in users
    ensures ReplyObject(row, users) in RepliesFor(replies, users, commentIds)
  {
    if replies[0] != row {
      RepliesForComplete(replies[1..], users, commentIds, row);
    }
  }

  /** The `date` column of a fetched row. */
  function DateOf(p: Payload): string {
    var d := Field(p, "date");
    if d.Str? then d.s else ""
  }

  predicate DatesAscending(rows: seq<Payload>) {
    forall i, j | 0 <= i < j < |rows| :: TimestampLe(DateOf(rows[i]), DateOf(rows[j]))
  }

  /** Puts a row into a list ascending by date, after the rows dated no later. */
  function InsertByDate(p: Payload, sorted: seq<Payload>): seq<Payload> {
    if sorted == [] then [p]
    else if TimestampLe(DateOf(p), DateOf(sorted[0])) && DateOf(p) != DateOf(sorted[0]) then [p] + sorted
    else [sorted[0]] + InsertByDate(p, sorted[1..])
  }

  /** `ORDER BY created_at`, as an insertion sort. */
  function SortByDate(rows: seq<Payload>): seq<Payload> {
    if rows == [] then [] else InsertByDate(rows[0], SortByDate(rows[1..]))
  }

  lemma {:induction false} InsertByDateKeepsRows(p: Payload, sorted: seq<Payload>)
    ensures multiset(InsertByDate(p, sorted)) == multiset(sorted) + multiset{p}
  {
    if sorted != [] && !(TimestampLe(DateOf(p), DateOf(sorted[0])) && DateOf(p) != DateOf(sorted[0])) {
      InsertByDateKeepsRows(p, sorted[1..]);
      assert sorted == [sorted[0]] + sorted[1..];
    }
  }

  lemma {:induction false} InsertByDateSorted(p: Payload, sorted: seq<Payload>)
    requires DatesAscending(sorted)
    ensures DatesAscending(InsertByDate(p, sorted))
  {
    if sorted == [] {
    } else if TimestampLe(DateOf(p), DateOf(sorted[0])) && DateOf(p) != DateOf(sorted[0]) {
      var r := InsertByDate(p, sorted);
      forall i, j | 0 <= i < j < |r| ensures TimestampLe(DateOf(r[i]), DateOf(r[j])) {
        if i == 0 && j > 1 {
          TimestampLeTransitive(DateOf(p), DateOf(sorted[0]), DateOf(sorted[j - 1]));
        }
      }
    } else {
      TimestampLeTotal(DateOf(p), DateOf(sorted[0]));
      var rest := InsertByDate(p, sorted[1..]);
      InsertByDateSorted(p, sorted[1..]);
      InsertByDateKeepsRows(p, sorted[1..]);
      var r := InsertByDate(p, sorted);
      assert r == [sorted[0]] + rest;
      forall i, j | 0 <= i < j < |r| ensures TimestampLe(DateOf(r[i]), DateOf(r[j])) {
        if i == 0 {
          assert rest[j - 1] in multiset(rest);
          assert rest[j - 1] == p || rest[j - 1] in sorted[1..];
        }
      }
    }
  }

  /** The sort returns the same rows, ascending by date. */
  lemma {:induction false} SortByDateCorrect(rows: seq<Payload>)
    ensures multiset(SortByDate(rows)) == multiset(rows)
    ensures DatesAscending(SortByDate(rows))
  {
    if rows != [] {
      SortByDateCorrect(rows[1..]);
      InsertByDateKeepsRows(rows[0], SortByDate(rows[1..]));
      InsertByDateSorted(rows[0], SortByDate(rows[1..]));
      assert rows == [rows[0]] + rows[1..];
    }
  }

  /** `UPDATE replies SET deleted_at = now WHERE id = replyId`. */
  function MarkDeleted(replies: seq<ReplyRow>, replyId: string, now: string): seq<ReplyRow> {
    if replies == [] then []
    else
      var row := replies[0];
      [if row.id == replyId then row.(deletedAt := Some(now)) else row] + MarkDeleted(replies[1..], replyId, now)
  }

  /** The soft delete sets the marker on the rows with that id and changes nothing else. */
  lemma {:induction false} MarkDeletedChangesOnlyMarker(replies: seq<ReplyRow>, replyId: string, now: string)
    ensures var after := MarkDeleted(replies, replyId, now);
      |after| == |replies|
      && forall i | 0 <= i < |replies| ::
        after[i] == (if replies[i].id == replyId then replies[i].(deletedAt := Some(now)) else replies[i])
  {
    if replies != [] {
      MarkDeletedChangesOnlyMarker(replies[1..], replyId, now);
    }
  }

  /** Deleting an id no row has changes nothing. */
  lemma MarkDeletedAbsentIsNoOp(replies: seq<ReplyRow>, replyId: string, now: string)
    requires !HasReply(replies, replyId)
    ensures MarkDeleted(replies, replyId, now) == replies
  {
    MarkDeletedChangesOnlyMarker(replies, replyId, now);
    assert forall i | 0 <= i < |replies| :: replies[i] in replies;
  }

  /** The per-comment fetch of the older aggregation: `is_deleted` instead of `deletedAt`. */
  function RepliesOfComment(replies: seq<ReplyRow>, users: Usernames, commentId: JsValue): (r: seq<Payload>)
    ensures |r| <= |replies|
  {
    if replies == [] then []
    else
      var rest := RepliesOfComment(replies[1..], users, commentId);
      var row := replies[0];
      if Str(row.commentId) == commentId && row.owner in users then
        [map["id" := Str(row.id), "username" := Str(users[row.owner]), "date" := Str(row.createdAt),
             "content" := Str(row.content), "is_deleted" := Bool(row.deletedAt.Some?)]] + rest
      else rest
  }

  class ReplyRepositoryPostgres {
    var replies: seq<ReplyRow>
    const usernames: Usernames
    const journal: Journal

    predicate Valid()
      reads this
    {
      UniqueIds(replies)
    }

    constructor (usernames: Usernames, journal: Journal)
      ensures Valid() && replies == []
      ensures this.usernames == usernames && this.journal == journal
    {
      replies := [];
      this.usernames := usernames;
      this.journal := journal;
    }

    /**
     * INSERT a row `reply-<suffix>` with no deletion marker; returns id,
     * content and owner. An id already in the table fails the insert.
     */
    method AddReply(content: string, ownerId: string, commentId: string, idSuffix: string, now: string)
      returns (r: Result<AddedReply, DomainError>)
      requires Valid()
      modifies this, journal
      ensures Valid()
      ensures journal.calls == old(journal.calls) + [Call.AddReply(content, ownerId, commentId)]
      ensures var id := "reply-" + idSuffix;
        if HasReply(old(replies), id) then
          r == Err(DatabaseError(DuplicateKeyMessage)) && replies == old(replies)
        else
          r == Ok(AddedReply(id, content, ownerId))
          && replies == old(replies) + [ReplyRow(id, content, ownerId, commentId, now, None)]
    {
      journal.calls := journal.calls + [Call.AddReply(content, ownerId, commentId)];
      var id := "reply-" + idSuffix;
      if HasReply(replies, id) {
        r := Err(DatabaseError(DuplicateKeyMessage));
      } else {
        assert forall i | 0 <= i < |replies| :: replies[i] in replies;
        replies := replies + [ReplyRow(id, content, ownerId, commentId, now, None)];
        r := Ok(AddedReply(id, content, ownerId));
      }
    }

    /** The replies to any of the comments, by known users, ascending by creation time. */
    method GetRepliesByCommentIds(commentIds: seq<JsValue>) returns (rows: seq<Payload>)
      modifies journal
      ensures journal.calls == old(journal.calls) + [Call.GetRepliesByCommentIds(commentIds)]
      ensures multiset(rows) == multiset(RepliesFor(replies, usernames, commentIds))
      ensures DatesAscending(rows)
    {
      journal.calls := journal.calls + [Call.GetRepliesByCommentIds(commentIds)];
      rows := SortByDate(RepliesFor(replies, usernames, commentIds));
      SortByDateCorrect(RepliesFor(replies, usernames, commentIds));
    }

    /**
     * The per-comment fetch the older aggregation calls; it is not defined in
     * the repository class. It is taken to return the comment's replies in
     * table order with an `is_deleted` flag.
     */
    method GetRepliesByCommentId(commentId: JsValue) returns (rows: seq<Payload>)
      modifies journal
      ensures journal.calls == old(journal.calls) + [Call.GetRepliesByCommentId(commentId)]
      ensures rows == RepliesOfComment(replies, usernames, commentId)
    {
      journal.calls := journal.calls + [Call.GetRepliesByCommentId(commentId)];
      rows := RepliesOfComment(replies, usernames, commentId);
    }

    /** Soft delete: only `deleted_at` of the rows with that id changes. */
    method DeleteReplyById(replyId: string, now: string)
      requires Valid()
      modifies this, journal
      ensures Valid()
      ensures journal.calls == old(journal.calls) + [Call.DeleteReplyById(replyId)]
      ensures replies == MarkDeleted(old(replies), replyId, now)
    {
      journal.calls := journal.calls + [Call.DeleteReplyById(replyId)];
      MarkDeletedChangesOnlyMarker(replies, replyId, now);
      replies := MarkDeleted(replies, replyId, now);
    }

    method VerifyReplyOwner(replyId: string, userId: JsValue) returns (r: Outcome<DomainError>)
      modifies journal
      ensures journal.calls == old(journal.calls) + [Call.VerifyReplyOwner(replyId, userId)]
      ensures r == OwnerCheck(replies, replyId, userId)
    {
      journal.calls := journal.calls + [Call.VerifyReplyOwner(replyId, userId)];
      r := OwnerCheck(replies, replyId, userId);
    }

    /** NotFoundError exactly when no reply, under any comment, has the id. */
    method VerifyReplyAvailability(replyId: string) returns (r: Outcome<DomainError>)
      modifies journal
      ensures journal.calls == old(journal.calls) + [Call.VerifyReplyAvailability(replyId)]
      ensures r.Pass? <==> HasReply(replies, replyId)
      ensures r == AvailabilityCheck(replies, replyId)
    {
      journal.calls := journal.calls + [Call.VerifyReplyAvailability(replyId)];
      r := AvailabilityCheck(replies, replyId);
    }

    /**
     * The scoped check the older delete calls; it is not defined in the
     * repository class. It fails exactly when no reply with that id answers
     * that comment (the comment's thread is checked by the step before it).
     */
    method VerifyAvailableReply(threadId: string, commentId: string, replyId: string) returns (r: Outcome<DomainError>)
      modifies journal
      ensures journal.calls == old(journal.calls) + [Call.VerifyAvailableReply(threadId, commentId, replyId)]
      ensures r.Pass? <==> HasReplyOnComment(replies, commentId, replyId)
      ensures r == ScopedCheck(replies, commentId, replyId)
    {
      journal.calls := journal.calls + [Call.VerifyAvailableReply(threadId, commentId, replyId)];
      r := ScopedCheck(replies, commentId, replyId);
    }
  }
}

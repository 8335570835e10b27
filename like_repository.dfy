/**
 * LikeRepositoryPostgres: the likes table, one row per like. Nothing makes
 * (owner, comment) unique, so the same pair may be stored twice.
 */
module LikeRepository {
  import opened Wrappers
  import opened JsValues
  import opened Errors
  import opened Tables
  import opened CallLog

  /** Some row records this owner liking this comment. */
  predicate Liked(likes: seq<LikeRow>, owner: string, commentId: string) {
    exists row | row in likes :: row.owner == owner && row.commentId == commentId
  }

  predicate HasLikeId(likes: seq<LikeRow>, id: string) {
    exists row | row in likes :: row.id == id
  }

  predicate UniqueIds(likes: seq<LikeRow>) {
    forall i, j | 0 <= i < j < |likes| :: likes[i].id != likes[j].id
  }

  /** `DELETE FROM likes WHERE owner = o AND comment_id = c`: every row of the pair goes, every other row stays. */
  function WithoutPair(likes: seq<LikeRow>, owner: string, commentId: string): (r: seq<LikeRow>)
    ensures forall row :: row in r <==> row in likes && !(row.owner == owner && row.commentId == commentId)
    ensures !Liked(r, owner, commentId)
    ensures |r| <= |likes|
  {
    if likes == [] then []
    else
      var rest := WithoutPair(likes[1..], owner, commentId);
      assert forall row :: row in likes <==> row == likes[0] || row in likes[1..];
      if likes[0].owner == owner && likes[0].commentId == commentId then rest else [likes[0]] + rest
  }

  /** Removing rows keeps the primary key. */
  lemma {:induction false} WithoutPairKeepsUniqueIds(likes: seq<LikeRow>, owner: string, commentId: string)
    requires UniqueIds(likes)
    ensures UniqueIds(WithoutPair(likes, owner, commentId))
  {
    if likes != [] {
      WithoutPairKeepsUniqueIds(likes[1..], owner, commentId);
      var rest := WithoutPair(likes[1..], owner, commentId);
      forall row | row in rest ensures row.id != likes[0].id {
        var k :| 1 <= k < |likes| && likes[k] == row;
      }
    }
  }

  /** One row of `SELECT id, comment_id AS "commentId"`. */
  function LikeObject(row: LikeRow): Payload {
    map["id" := Str(row.id), "commentId" := Str(row.commentId)]
  }

  /** The `{id, commentId}` rows for the listed comments, in table order. */
  function LikesFor(likes: seq<LikeRow>, commentIds: seq<JsValue>): (r: seq<Payload>)
    ensures |r| <= |likes|
    ensures forall p | p in r :: Field(p, "commentId") in commentIds
    ensures forall p | p in r :: exists row | row in likes :: Str(row.commentId) in commentIds && p == LikeObject(row)
  {
    if likes == [] then []
    else
      assert forall row :: row in likes[1..] ==> row in likes;
      var rest := LikesFor(likes[1..], commentIds);
      if Str(likes[0].commentId) in commentIds then [LikeObject(likes[0])] + rest else rest
  }

  /** Every stored like of a listed comment is among the rows. */
  lemma {:induction false} LikesForComplete(likes: seq<LikeRow>, commentIds: seq<JsValue>, row: LikeRow)
    requires row in likes && Str(row.commentId) in commentIds
    ensures LikeObject(row) in LikesFor(likes, commentIds)
  {
    if likes[0] != row {
      assert row in likes[1..];
      LikesForComplete(likes[1..], commentIds, row);
    }
  }

  /** The number of rows for one comment. */
  function CountLikes(likes: seq<LikeRow>, commentId: JsValue): (n: nat)
    ensures n <= |likes|
    ensures n == 0 <==> forall row | row in likes :: Str(row.commentId) != commentId
  {
    if likes == [] then 0
    else
      assert forall row :: row in likes <==> row == likes[0] || row in likes[1..];
      (if Str(likes[0].commentId) == commentId then 1 else 0) + CountLikes(likes[1..], commentId)
  }

  /**
   * The table after one toggle of the pair: its rows removed when it is
   * liked, otherwise one row `like-<suffix>` added (unless that id is taken,
   * when the insert fails and nothing changes).
   */
  function Toggled(likes: seq<LikeRow>, owner: string, commentId: string, idSuffix: string): seq<LikeRow> {
    if Liked(likes, owner, commentId) then WithoutPair(likes, owner, commentId)
    else if HasLikeId(likes, "like-" + idSuffix) then likes
    else likes + [LikeRow("like-" + idSuffix, owner, commentId)]
  }

  /** A toggle that does not hit a taken id flips whether the pair is liked. */
  lemma ToggledFlipsLike(likes: seq<LikeRow>, owner: string, commentId: string, idSuffix: string)
    requires Liked(likes, owner, commentId) || !HasLikeId(likes, "like-" + idSuffix)
    ensures Liked(Toggled(likes, owner, commentId, idSuffix), owner, commentId) == !Liked(likes, owner, commentId)
  {
    if !Liked(likes, owner, commentId) {
      var row := LikeRow("like-" + idSuffix, owner, commentId);
      assert row in likes + [row];
    }
  }

  /** A toggle leaves every other pair's liked state as it was. */
  lemma ToggledKeepsOtherPairs(likes: seq<LikeRow>, owner: string, commentId: string, idSuffix: string,
                               otherOwner: string, otherComment: string)
    requires otherOwner != owner || otherComment != commentId
    ensures Liked(Toggled(likes, owner, commentId, idSuffix), otherOwner, otherComment) == Liked(likes, otherOwner, otherComment)
  {
    var t := Toggled(likes, owner, commentId, idSuffix);
    if Liked(likes, otherOwner, otherComment) {
      var row :| row in likes && row.owner == otherOwner && row.commentId == otherComment;
      if !Liked(likes, owner, commentId) && !HasLikeId(likes, "like-" + idSuffix) {
        assert row in t;
      }
    }
    if Liked(t, otherOwner, otherComment) {
      var row :| row in t && row.owner == otherOwner && row.commentId == otherComment;
      if !Liked(likes, owner, commentId) && !HasLikeId(likes, "like-" + idSuffix) {
        assert row in likes || row == LikeRow("like-" + idSuffix, owner, commentId);
      }
    }
  }

  /** From "not liked", two toggles in a row like the comment and then unlike it. */
  lemma TwoTogglesUnlike(likes: seq<LikeRow>, owner: string, commentId: string, firstSuffix: string, secondSuffix: string)
    requires !Liked(likes, owner, commentId) && !HasLikeId(likes, "like-" + firstSuffix)
    ensures Liked(Toggled(likes, owner, commentId, firstSuffix), owner, commentId)
    ensures !Liked(Toggled(Toggled(likes, owner, commentId, firstSuffix), owner, commentId, secondSuffix), owner, commentId)
  {
    ToggledFlipsLike(likes, owner, commentId, firstSuffix);
    ToggledFlipsLike(Toggled(likes, owner, commentId, firstSuffix), owner, commentId, secondSuffix);
  }

  class LikeRepositoryPostgres {
    var likes: seq<LikeRow>
    const journal: Journal

    predicate Valid()
      reads this
    {
      UniqueIds(likes)
    }

    constructor (journal: Journal)
      ensures Valid() && likes == [] && this.journal == journal
    {
      likes := [];
      this.journal := journal;
    }

    /**
     * INSERT `(like-<suffix>, owner, comment)` without looking for an
     * existing like of the pair; returns the new like's `{ id }` row
     * (`RETURNING id`), kept as its id. An id already in the table fails
     * the insert.
     */
    method AddLike(ownerId: string, commentId: string, idSuffix: string) returns (r: Result<string, DomainError>)
      requires Valid()
      modifies this, journal
      ensures Valid()
      ensures journal.calls == old(journal.calls) + [Call.AddLike(ownerId, commentId)]
      ensures var id := "like-" + idSuffix;
        if HasLikeId(old(likes), id) then
          r == Err(DatabaseError(DuplicateKeyMessage)) && likes == old(likes)
        else
          r == Ok(id) && likes == old(likes) + [LikeRow(id, ownerId, commentId)]
    {
      journal.calls := journal.calls + [Call.AddLike(ownerId, commentId)];
      var id := "like-" + idSuffix;
      if HasLikeId(likes, id) {
        r := Err(DatabaseError(DuplicateKeyMessage));
      } else {
        assert forall i | 0 <= i < |likes| :: likes[i] in likes;
        likes := likes + [LikeRow(id, ownerId, commentId)];
        r := Ok(id);
      }
    }

    method DeleteLike(ownerId: string, commentId: string)
      requires Valid()
      modifies this, journal
      ensures Valid()
      ensures journal.calls == old(journal.calls) + [Call.DeleteLike(ownerId, commentId)]
      ensures likes == WithoutPair(old(likes), ownerId, commentId)
    {
      journal.calls := journal.calls + [Call.DeleteLike(ownerId, commentId)];
      WithoutPairKeepsUniqueIds(likes, ownerId, commentId);
      likes := WithoutPair(likes, ownerId, commentId);
    }

    /** `rowCount ? true : false`: whether the pair has a row. */
    method VerifyLikeAvailability(ownerId: string, commentId: string) returns (liked: bool)
      modifies journal
      ensures journal.calls == old(journal.calls) + [Call.VerifyLikeAvailability(ownerId, commentId)]
      ensures liked <==> Liked(likes, ownerId, commentId)
    {
      journal.calls := journal.calls + [Call.VerifyLikeAvailability(ownerId, commentId)];
      liked := Liked(likes, ownerId, commentId);
    }

    /** The likes of the listed comments, with no ORDER BY: some arrangement of them. */
    method GetLikesByCommentIds(commentIds: seq<JsValue>) returns (rows: seq<Payload>)
      modifies journal
      ensures journal.calls == old(journal.calls) + [Call.GetLikesByCommentIds(commentIds)]
      ensures multiset(rows) == multiset(LikesFor(likes, commentIds))
    {
      journal.calls := journal.calls + [Call.GetLikesByCommentIds(commentIds)];
      rows := LikesFor(likes, commentIds);
    }

    /**
     * The per-comment count the older aggregation calls; it is not defined
     * in the repository class. It is taken to count the comment's rows.
     */
    method CountCommentLikes(commentId: JsValue) returns (n: int)
      modifies journal
      ensures journal.calls == old(journal.calls) + [Call.CountCommentLikes(commentId)]
      ensures n == CountLikes(likes, commentId)
    {
      journal.calls := journal.calls + [Call.CountCommentLikes(commentId)];
      n := CountLikes(likes, commentId);
    }

    /**
     * The toggle the older like use case calls; it is not defined in the
     * repository class. It is taken to remove the pair's rows when the pair
     * is liked and to insert one row otherwise.
     */
    method ToggleCommentLike(ownerId: string, commentId: string, idSuffix: string) returns (r: Outcome<DomainError>)
      requires Valid()
      modifies this, journal
      ensures Valid()
      ensures journal.calls == old(journal.calls) + [Call.ToggleCommentLike(ownerId, commentId)]
      ensures likes == Toggled(old(likes), ownerId, commentId, idSuffix)
      ensures r.Fail? <==> !Liked(old(likes), ownerId, commentId) && HasLikeId(old(likes), "like-" + idSuffix)
      ensures r.Fail? ==> r == Fail(DatabaseError(DuplicateKeyMessage))
      ensures r.Pass? ==> Liked(likes, ownerId, commentId) == !Liked(old(likes), ownerId, commentId)
    {
      journal.calls := journal.calls + [Call.ToggleCommentLike(ownerId, commentId)];
      if Liked(likes, ownerId, commentId) {
        WithoutPairKeepsUniqueIds(likes, ownerId, commentId);
        likes := WithoutPair(likes, ownerId, commentId);
        r := Pass;
      } else if HasLikeId(likes, "like-" + idSuffix) {
        r := Fail(DatabaseError(DuplicateKeyMessage));
      } else {
        assert forall i | 0 <= i < |likes| :: likes[i] in likes;
        var row := LikeRow("like-" + idSuffix, ownerId, commentId);
        likes := likes + [row];
        assert row in likes;
        r := Pass;
      }
    }
  }

  /** After a like is added the pair is liked, and a second like of the same pair is a duplicate row. */
  lemma AddedLikeIsLiked(likes: seq<LikeRow>, row: LikeRow)
    ensures Liked(likes + [row], row.owner, row.commentId)
    ensures Liked(likes, row.owner, row.commentId) ==>
      CountLikes(likes + [row], Str(row.commentId)) >= 2
  {
    assert row in likes + [row];
    if Liked(likes, row.owner, row.commentId) {
      var other :| other in likes && other.owner == row.owner && other.commentId == row.commentId;
      CountAppend(likes, row, Str(row.commentId));
      assert CountLikes(likes, Str(row.commentId)) != 0;
    }
  }

  lemma {:induction false} CountAppend(likes: seq<LikeRow>, row: LikeRow, commentId: JsValue)
    ensures CountLikes(likes + [row], commentId)
         == CountLikes(likes, commentId) + (if Str(row.commentId) == commentId then 1 else 0)
  {
    if likes == [] {
      assert likes + [row] == [row];
    } else {
      assert (likes + [row])[1..] == likes[1..] + [row];
      CountAppend(likes[1..], row, commentId);
    }
  }
}

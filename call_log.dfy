/**
 * The repository calls a use case makes, in the order it makes them. Every
 * repository method appends its own entry to one shared journal, so the
 * use cases' contracts can state which calls happened, in which order, and
 * which never happened.
 */
module CallLog {
  import opened JsValues

  datatype Call =
    // threads
    | AddThread(title: string, body: string, owner: string)
    | VerifyAvailableThread(thread: JsValue)
    | VerifyThreadAvailability(thread: JsValue)
    | GetThreadById(thread: JsValue)
    // comments
    | AddComment(content: string, owner: string, threadId: string)
    | GetCommentsByThreadId(thread: JsValue)
    | DeleteCommentById(commentId: string)
    | VerifyCommentOwner(commentId: string, userId: JsValue)
    | VerifyCommentAvailability(commentId: string)
    | VerifyAvailableComment(threadId: string, commentId: string)
    // replies
    | AddReply(content: string, owner: string, commentId: string)
    | GetRepliesByCommentIds(commentIds: seq<JsValue>)
    | GetRepliesByCommentId(comment: JsValue)
    | DeleteReplyById(replyId: string)
    | VerifyReplyOwner(replyId: string, userId: JsValue)
    | VerifyReplyAvailability(replyId: string)
    | VerifyAvailableReply(threadId: string, commentId: string, replyId: string)
    // likes
    | AddLike(owner: string, commentId: string)
    | DeleteLike(owner: string, commentId: string)
    | VerifyLikeAvailability(owner: string, commentId: string)
    | GetLikesByCommentIds(commentIds: seq<JsValue>)
    | CountCommentLikes(comment: JsValue)
    | ToggleCommentLike(owner: string, commentId: string)
  {
    /** The calls that change a table. */
    predicate IsWrite() {
      AddThread? || AddComment? || DeleteCommentById? || AddReply? || DeleteReplyById?
      || AddLike? || DeleteLike? || ToggleCommentLike?
    }
  }

  /** How many of the calls change a table. */
  function Writes(calls: seq<Call>): nat {
    if calls == [] then 0 else (if calls[0].IsWrite() then 1 else 0) + Writes(calls[1..])
  }

  lemma {:induction false} WritesAppend(a: seq<Call>, b: seq<Call>)
    ensures Writes(a + b) == Writes(a) + Writes(b)
  {
    if a != [] {
      assert (a + b)[1..] == a[1..] + b;
      WritesAppend(a[1..], b);
    } else {
      assert a + b == b;
    }
  }

  /** The journal every repository of one store appends to. */
  class Journal {
    ghost var calls: seq<Call>

    constructor ()
      ensures calls == []
    {
      calls := [];
    }
  }
}

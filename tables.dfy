/**
 * The rows of the four tables the repositories work on, and the order the
 * stored creation timestamps (ISO-8601 strings) sort in.
 */
module Tables {
  import opened Wrappers

  /** threads(id, title, body, owner, created_at) */
  datatype ThreadRow = ThreadRow(id: string, title: string, body: string, owner: string, createdAt: string)

  /** comments(id, content, owner, thread_id, created_at, deleted_at) */
  datatype CommentRow = CommentRow(
    id: string, content: string, owner: string, threadId: string, createdAt: string, deletedAt: Option<string>)

  /** replies(id, content, owner, comment_id, created_at, deleted_at) */
  datatype ReplyRow = ReplyRow(
    id: string, content: string, owner: string, commentId: string, createdAt: string, deletedAt: Option<string>)

  /** likes(id, owner, comment_id): no uniqueness on (owner, comment_id). */
  datatype LikeRow = LikeRow(id: string, owner: string, commentId: string)

  /** The users table as the joins see it: user id to username. */
  type Usernames = map<string, string>

  /** Lexicographic order on strings, the order of ISO-8601 timestamps. */
  predicate TimestampLe(a: string, b: string)
    decreases |a|
  {
    a == [] || (b != [] && (a[0] < b[0] || (a[0] == b[0] && TimestampLe(a[1..], b[1..]))))
  }

  lemma {:induction false} TimestampLeTotal(a: string, b: string)
    ensures TimestampLe(a, b) || TimestampLe(b, a)
    decreases |a|
  {
    if a != [] && b != [] && a[0] == b[0] {
      TimestampLeTotal(a[1..], b[1..]);
    }
  }

  lemma {:induction false} TimestampLeTransitive(a: string, b: string, c: string)
    requires TimestampLe(a, b) && TimestampLe(b, c)
    ensures TimestampLe(a, c)
    decreases |a|
  {
    if a != [] && b != [] && c != [] && a[0] == b[0] && b[0] == c[0] {
      TimestampLeTransitive(a[1..], b[1..], c[1..]);
    }
  }
}

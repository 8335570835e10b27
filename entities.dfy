/**
 * The entities whose classes are not part of this model. Their constructors
 * are taken to copy the fields shown here; the checks they may perform are
 * not modelled (a use case receives the outcome of such a constructor as
 * an input instead).
 */
module Entities {
  import opened JsValues

  /** A thread to be stored: its owner, title and body. */
  datatype AddThread = AddThread(owner: string, title: string, body: string)

  /** The columns `addThread` returns: id, owner, title. */
  datatype AddedThread = AddedThread(id: string, owner: string, title: string)

  /** The columns `addComment` returns: id, content, owner. */
  datatype AddedComment = AddedComment(id: string, content: string, owner: string)

  /** The columns `addReply` returns: id, content, owner. */
  datatype AddedReply = AddedReply(id: string, content: string, owner: string)

  /** `new ReplyDetail(p)`: an instance holding p's id, username, date and content. */
  function ReplyDetail(p: Payload): (v: JsValue)
    ensures InstanceOf(v, ReplyDetailClass)
    ensures "content" in v.fields && "id" in v.fields
    ensures v.fields["content"] == Field(p, "content") && v.fields["id"] == Field(p, "id")
  {
    Obj(ReplyDetailClass, map[
      "id" := Field(p, "id"),
      "username" := Field(p, "username"),
      "date" := Field(p, "date"),
      "content" := Field(p, "content")])
  }
}

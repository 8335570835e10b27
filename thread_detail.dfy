/**
 * ThreadDetail: the validated thread view. Presence of the five scalar
 * fields, then their types and that `comments` is an array, then that
 * every element of `comments` is a CommentDetail instance.
 */
module ThreadDetailEntity {
  import opened Wrappers
  import opened JsValues

  const NotContainNeededProperty: string := "THREAD_DETAIL.NOT_CONTAIN_NEEDED_PROPERTY"
  const NotMeetDataTypeSpecification: string := "THREAD_DETAIL.NOT_MEET_DATA_TYPE_SPECIFICATION"

  datatype ThreadDetail = ThreadDetail(
    id: string,
    title: string,
    body: string,
    date: string,
    username: string,
    comments: seq<JsValue>)

  /** The presence check: `comments` is not part of it. */
  predicate HasNeededProperties(p: Payload) {
    && Truthy(Field(p, "id"))
    && Truthy(Field(p, "title"))
    && Truthy(Field(p, "body"))
    && Truthy(Field(p, "date"))
    && Truthy(Field(p, "username"))
  }

  predicate MeetsDataTypes(p: Payload) {
    && IsString(Field(p, "id"))
    && IsString(Field(p, "title"))
    && IsString(Field(p, "body"))
    && IsString(Field(p, "date"))
    && IsString(Field(p, "username"))
    && IsArray(Field(p, "comments"))
  }

  /** The `forEach` over `comments`: every element is a CommentDetail. */
  predicate AllCommentDetails(items: seq<JsValue>) {
    forall i | 0 <= i < |items| :: InstanceOf(items[i], CommentDetailClass)
  }

  function Fields(t: ThreadDetail): Payload {
    map[
      "id" := Str(t.id),
      "title" := Str(t.title),
      "body" := Str(t.body),
      "date" := Str(t.date),
      "username" := Str(t.username),
      "comments" := Arr(t.comments)]
  }

  /** `new ThreadDetail(payload)`: the detail, or the code of the Error it throws. */
  function New(p: Payload): (r: Result<ThreadDetail, string>)
    ensures r.Ok? <==> HasNeededProperties(p) && MeetsDataTypes(p) && AllCommentDetails(Field(p, "comments").items)
    ensures !HasNeededProperties(p) ==> r == Err(NotContainNeededProperty)
    ensures HasNeededProperties(p) && r.Err? ==> r == Err(NotMeetDataTypeSpecification)
    ensures r.Ok? ==> forall k | k in Fields(r.value) :: Field(p, k) == Fields(r.value)[k]
    ensures r.Ok? ==> r.value.id != "" && r.value.title != "" && r.value.body != "" && r.value.date != "" && r.value.username != ""
  {
    if !HasNeededProperties(p) then
      Err(NotContainNeededProperty)
    else if !MeetsDataTypes(p) then
      Err(NotMeetDataTypeSpecification)
    else if !AllCommentDetails(Field(p, "comments").items) then
      Err(NotMeetDataTypeSpecification)
    else
      Ok(ThreadDetail(
        Field(p, "id").s,
        Field(p, "title").s,
        Field(p, "body").s,
        Field(p, "date").s,
        Field(p, "username").s,
        Field(p, "comments").items))
  }

  /** A detail rebuilt from its own fields is the same detail. */
  lemma NewOfFields(t: ThreadDetail)
    requires t.id != "" && t.title != "" && t.body != "" && t.date != "" && t.username != ""
    requires AllCommentDetails(t.comments)
    ensures New(Fields(t)) == Ok(t)
  {
  }

  /** A missing `comments` is a type failure, not a presence failure. */
  lemma MissingCommentsIsTypeFailure(p: Payload)
    requires HasNeededProperties(p) && "comments" !in p
    ensures New(p) == Err(NotMeetDataTypeSpecification)
  {
  }

  /** An empty comment list is accepted. */
  lemma EmptyCommentsAccepted(p: Payload)
    requires HasNeededProperties(p) && MeetsDataTypes(p) && Field(p, "comments") == Arr([])
    ensures New(p).Ok? && New(p).value.comments == []
  {
  }

  /** One element that is not a CommentDetail (a plain object with the same fields, say) fails the whole detail. */
  lemma NonCommentDetailElementRejected(p: Payload, i: nat)
    requires HasNeededProperties(p) && MeetsDataTypes(p)
    requires i < |Field(p, "comments").items| && !InstanceOf(Field(p, "comments").items[i], CommentDetailClass)
    ensures New(p) == Err(NotMeetDataTypeSpecification)
  {
  }
}

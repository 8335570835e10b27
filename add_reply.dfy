/** AddReply: a new reply's content, owner and parent comment, all required non-empty strings. */
module AddReplyEntity {
  import opened Wrappers
  import opened JsValues

  const NotContainNeededProperty: string := "ADD_REPLY.NOT_CONTAIN_NEEDED_PROPERTY"
  const NotMeetDataTypeSpecification: string := "ADD_REPLY.NOT_MEET_DATA_TYPE_SPECIFICATION"

  datatype AddReply = AddReply(content: string, owner: string, comment: string)

  predicate HasNeededProperties(p: Payload) {
    Truthy(Field(p, "content")) && Truthy(Field(p, "owner")) && Truthy(Field(p, "comment"))
  }

  predicate MeetsDataTypes(p: Payload) {
    IsString(Field(p, "content")) && IsString(Field(p, "owner")) && IsString(Field(p, "comment"))
  }

  function Fields(a: AddReply): Payload {
    map["content" := Str(a.content), "owner" := Str(a.owner), "comment" := Str(a.comment)]
  }

  /** `new AddReply(payload)`: the entity, or the code of the Error it throws. */
  function New(p: Payload): (r: Result<AddReply, string>)
    ensures r.Ok? <==> HasNeededProperties(p) && MeetsDataTypes(p)
    ensures !HasNeededProperties(p) ==> r == Err(NotContainNeededProperty)
    ensures HasNeededProperties(p) && !MeetsDataTypes(p) ==> r == Err(NotMeetDataTypeSpecification)
    ensures r.Ok? ==> Field(p, "content") == Str(r.value.content) && Field(p, "owner") == Str(r.value.owner)
                      && Field(p, "comment") == Str(r.value.comment)
    ensures r.Ok? ==> r.value.content != "" && r.value.owner != "" && r.value.comment != ""
  {
    if !HasNeededProperties(p) then
      Err(NotContainNeededProperty)
    else if !MeetsDataTypes(p) then
      Err(NotMeetDataTypeSpecification)
    else
      Ok(AddReply(Field(p, "content").s, Field(p, "owner").s, Field(p, "comment").s))
  }

  lemma NewOfFields(a: AddReply)
    requires a.content != "" && a.owner != "" && a.comment != ""
    ensures New(Fields(a)) == Ok(a)
  {
  }

  /** A payload carrying only `content` is rejected: owner and comment must travel inside the payload. */
  lemma ContentOnlyRejected(content: string)
    ensures New(map["content" := Str(content)]) == Err(NotContainNeededProperty)
  {
    assert Field(map["content" := Str(content)], "owner") == Undefined;
  }
}

/**
 * CommentDetail: the validated view of one comment inside a thread detail.
 * The constructor checks presence (truthiness) of five fields first, then
 * the types of all six, and copies the fields.
 */
module CommentDetailEntity {
  import opened Wrappers
  import opened JsValues

  const NotContainNeededProperty: string := "COMMENT_DETAIL.NOT_CONTAIN_NEEDED_PROPERTY"
  const NotMeetDataTypeSpecification: string := "COMMENT_DETAIL.NOT_MEET_DATA_TYPE_SPECIFICATION"

  datatype CommentDetail = CommentDetail(
    id: string,
    username: string,
    date: string,
    content: string,
    likeCount: int,
    replies: seq<JsValue>)

  /** The presence check: `likeCount` is not part of it. */
  predicate HasNeededProperties(p: Payload) {
    && Truthy(Field(p, "id"))
    && Truthy(Field(p, "username"))
    && Truthy(Field(p, "date"))
    && Truthy(Field(p, "content"))
    && Truthy(Field(p, "replies"))
  }

  /** The type check. */
  predicate MeetsDataTypes(p: Payload) {
    && IsString(Field(p, "id"))
    && IsString(Field(p, "username"))
    && IsString(Field(p, "date"))
    && IsString(Field(p, "content"))
    && IsNumber(Field(p, "likeCount"))
    && IsArray(Field(p, "replies"))
  }

  /** The own properties of a constructed CommentDetail. */
  function Fields(c: CommentDetail): Payload {
    map[
      "id" := Str(c.id),
      "username" := Str(c.username),
      "date" := Str(c.date),
      "content" := Str(c.content),
      "likeCount" := Num(c.likeCount),
      "replies" := Arr(c.replies)]
  }

  /** The object `new CommentDetail(...)` evaluates to. */
  function AsValue(c: CommentDetail): (v: JsValue)
    ensures InstanceOf(v, CommentDetailClass)
  {
    Obj(CommentDetailClass, Fields(c))
  }

  /** `new CommentDetail(payload)`: the detail, or the code of the Error it throws. */
  function New(p: Payload): (r: Result<CommentDetail, string>)
    ensures r.Ok? <==> HasNeededProperties(p) && MeetsDataTypes(p)
    ensures !HasNeededProperties(p) ==> r == Err(NotContainNeededProperty)
    ensures HasNeededProperties(p) && !MeetsDataTypes(p) ==> r == Err(NotMeetDataTypeSpecification)
    ensures r.Ok? ==> forall k | k in Fields(r.value) :: Field(p, k) == Fields(r.value)[k]
    ensures r.Ok? ==> r.value.id != "" && r.value.username != "" && r.value.date != "" && r.value.content != ""
  {
    if !HasNeededProperties(p) then
      Err(NotContainNeededProperty)
    else if !MeetsDataTypes(p) then
      Err(NotMeetDataTypeSpecification)
    else
      Ok(CommentDetail(
        Field(p, "id").s,
        Field(p, "username").s,
        Field(p, "date").s,
        Field(p, "content").s,
        Field(p, "likeCount").n,
        Field(p, "replies").items))
  }

  /**
   * `payloads.map((p) => new CommentDetail(p))`: every detail, in order, or
   * the code thrown for the first payload that fails its checks.
   */
  function NewAll(payloads: seq<Payload>): (r: Result<seq<CommentDetail>, string>)
    ensures r.Ok? <==> forall i | 0 <= i < |payloads| :: New(payloads[i]).Ok?
    ensures r.Ok? ==> (|r.value| == |payloads| && forall i | 0 <= i < |payloads| :: r.value[i] == New(payloads[i]).value)
    ensures r.Err? ==> exists k | 0 <= k < |payloads| ::
      && (forall i | 0 <= i < k :: New(payloads[i]).Ok?)
      && New(payloads[k]).Err? && r.error == New(payloads[k]).error
  {
    if payloads == [] then Ok([])
    else
      match New(payloads[0])
      case Err(code) => Err(code)
      case Ok(first) =>
        var rest := NewAll(payloads[1..]);
        assert forall i | 1 <= i < |payloads| :: payloads[i] == payloads[1..][i - 1];
        if rest.Err? then rest else Ok([first] + rest.value)
  }

  /** A detail rebuilt from its own fields is the same detail: the constructor loses nothing. */
  lemma NewOfFields(c: CommentDetail)
    requires c.id != "" && c.username != "" && c.date != "" && c.content != ""
    ensures New(Fields(c)) == Ok(c)
  {
  }

  /** A like count of zero passes, because `likeCount` is only type-checked. */
  lemma ZeroLikeCountAccepted(p: Payload)
    requires HasNeededProperties(p) && MeetsDataTypes(p)
    ensures New(p["likeCount" := Num(0)]).Ok?
    ensures New(p["likeCount" := Num(0)]).value.likeCount == 0
  {
    var q := p["likeCount" := Num(0)];
    assert Field(q, "likeCount") == Num(0);
    assert forall k | k != "likeCount" :: Field(q, k) == Field(p, k);
  }

  /** Empty content counts as missing, whatever the other fields are. */
  lemma EmptyContentIsMissing(p: Payload)
    requires Field(p, "content") == Str("")
    ensures New(p) == Err(NotContainNeededProperty)
  {
  }

  /** Presence is checked before type: a payload that is both incomplete and mistyped reports the missing property. */
  lemma PresenceBeforeType(p: Payload)
    requires !HasNeededProperties(p) && !MeetsDataTypes(p)
    ensures New(p) == Err(NotContainNeededProperty)
  {
  }
}

/**
 * The guard clauses that open the newer use cases: every parameter must be
 * truthy, and then every parameter must be a string; each failure throws a
 * plain Error whose message names the use case.
 */
module UseCaseParameters {
  import opened Wrappers
  import opened JsValues
  import opened Errors

  function NotContainCode(useCase: string): string {
    useCase + ".NOT_CONTAIN_NEEDED_PARAMETER"
  }

  function NotMeetTypeCode(useCase: string): string {
    useCase + ".PARAMETER_NOT_MEET_DATA_TYPE_SPECIFICATION"
  }

  /** `if (!a || !b) throw …; if (typeof a !== 'string' || …) throw …` */
  function CheckParameters(useCase: string, params: seq<JsValue>): (r: Outcome<DomainError>)
    ensures r.Pass? <==> forall i | 0 <= i < |params| :: params[i].Str? && params[i].s != []
    ensures (exists i | 0 <= i < |params| :: !Truthy(params[i])) ==> r == Fail(PlainError(NotContainCode(useCase)))
    ensures (forall i | 0 <= i < |params| :: Truthy(params[i])) && (exists i | 0 <= i < |params| :: !params[i].Str?)
      ==> r == Fail(PlainError(NotMeetTypeCode(useCase)))
  {
    if exists i | 0 <= i < |params| :: !Truthy(params[i]) then Fail(PlainError(NotContainCode(useCase)))
    else if exists i | 0 <= i < |params| :: !params[i].Str? then Fail(PlainError(NotMeetTypeCode(useCase)))
    else Pass
  }
}

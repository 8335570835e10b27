/**
 * JavaScript values as the validators and use cases see them: `typeof`,
 * `Array.isArray`, `instanceof`, truthiness, strict equality and property
 * access on plain objects.
 */
module JsValues {

  /** The class an object was constructed by; `instanceof` tests it. */
  datatype Class = PlainObject | CommentDetailClass | ReplyDetailClass

  /** A JavaScript value. Numbers are integers here (no NaN, no -0). */
  datatype JsValue =
    | Undefined
    | Null
    | Bool(b: bool)
    | Num(n: int)
    | Str(s: string)
    | Arr(items: seq<JsValue>)
    | Obj(cls: Class, fields: map<string, JsValue>)

  /** The own properties of an object: a request payload or a fetched row. */
  type Payload = map<string, JsValue>

  /** `!!v` */
  predicate Truthy(v: JsValue) {
    match v
    case Undefined => false
    case Null => false
    case Bool(b) => b
    case Num(n) => n != 0
    case Str(s) => s != ""
    case Arr(_) => true
    case Obj(_, _) => true
  }

  /** `typeof v === 'string'` */
  predicate IsString(v: JsValue) { v.Str? }

  /** `typeof v === 'number'` */
  predicate IsNumber(v: JsValue) { v.Num? }

  /** `Array.isArray(v)` */
  predicate IsArray(v: JsValue) { v.Arr? }

  /** `v instanceof C` */
  predicate InstanceOf(v: JsValue, c: Class) { v.Obj? && v.cls == c }

  /**
   * `a === b` on the values this core compares (ids). Two objects are
   * never taken to be the same reference.
   */
  predicate StrictEquals(a: JsValue, b: JsValue) {
    a == b && !a.Arr? && !a.Obj?
  }

  /** `p.key` (and destructuring `{ key } = p`): a missing property reads as undefined. */
  function Field(p: Payload, key: string): JsValue {
    if key in p then p[key] else Undefined
  }

  /** Falsy values are exactly undefined, null, false, 0 and the empty string. */
  lemma FalsyValues(v: JsValue)
    ensures !Truthy(v) <==> v in {Undefined, Null, Bool(false), Num(0), Str("")}
  {
  }
}

/** JavaScript values as the handlers see them after `JSON.parse` or in a
    request body, with JavaScript's truthiness and property lookup. */
module Json {
  import opened Wrappers

  /** A JavaScript value. Numbers are integers here (see README, "Left out"). */
  datatype JsValue =
    | Undefined
    | Null
    | Bool(b: bool)
    | Num(n: int)
    | Str(s: string)
    | Arr(items: seq<JsValue>)
    | Obj(fields: map<string, JsValue>)

  /** What `if (v)` / `!v` decide: `undefined`, `null`, `false`, `0` and `""` are falsy. */
  predicate Truthy(v: JsValue) {
    match v
    case Undefined => false
    case Null => false
    case Bool(b) => b
    case Num(n) => n != 0
    case Str(s) => s != ""
    case Arr(_) => true
    case Obj(_) => true
  }

  /** `v.key` on a value that is neither `null` nor `undefined`: an object's own
      field, and `undefined` for everything else (the keys read here, `sid`,
      `userId` and `sessionId`, are not properties of primitives or arrays). */
  function Prop(v: JsValue, key: string): (r: JsValue)
    ensures r != Undefined ==> v.Obj? && key in v.fields
  {
    match v
    case Obj(fields) => if key in fields then fields[key] else Undefined
    case _ => Undefined
  }

  /** Destructuring `const { key } = v` throws a TypeError exactly when `v` is
      `null` or `undefined`. */
  predicate Destructurable(v: JsValue) {
    !v.Null? && !v.Undefined?
  }

  /** Truthiness of an optional text field of a request body (`!username`). */
  predicate TruthyText(o: Option<string>) {
    o.Some? && o.value != ""
  }

  /** The object the login handler serialises into the `main_session` cookie:
      `{ sid, userId, role }`. */
  function SessionObject(sid: string, userId: int, role: string): (v: JsValue)
    ensures Prop(v, "sid") == Str(sid) && Prop(v, "userId") == Num(userId)
    ensures Prop(v, "role") == Str(role) && Prop(v, "sessionId") == Undefined
  {
    Obj(map["sid" := Str(sid), "userId" := Num(userId), "role" := Str(role)])
  }
}

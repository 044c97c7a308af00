/**
 * The JavaScript values the site generator handles: what `JSON.parse` can
 * produce, how a property is read from them, and the `typeof`,
 * `Array.isArray` and truthiness tests the program applies to them.
 */
module Js {
  import opened Wrappers

  /** A value produced by `JSON.parse`. Numbers keep only an integer: no rule of the program looks at a number beyond its type and truthiness. */
  datatype Json =
    | JNull
    | JBool(b: bool)
    | JNum(n: int)
    | JStr(s: string)
    | JArr(items: seq<Json>)
    | JObj(fields: map<string, Json>)

  /** The result of evaluating an expression that may throw the TypeError raised by reading a property of `null`. */
  datatype Fallible<T> = Ok(value: T) | TypeError

  /** `!!v`: null, false, 0 and the empty string are falsy; arrays and objects are truthy. */
  predicate Truthy(v: Json) {
    match v
    case JNull => false
    case JBool(b) => b
    case JNum(n) => n != 0
    case JStr(s) => s != ""
    case JArr(_) => true
    case JObj(_) => true
  }

  /** `v && typeof v === 'object'`: true of arrays and objects, false of null and of every primitive. */
  predicate IsObject(v: Json) {
    Truthy(v) && (v.JNull? || v.JArr? || v.JObj?)
  }

  /**
   * `v[key]` for a value that is not null: `undefined` (None) unless `v` is an
   * object holding `key`. The keys the program reads (title, file, questions,
   * question, answers, answer, correct) are not properties of arrays,
   * strings, numbers or booleans. Reading a property of null throws; every
   * caller tests for null first.
   */
  function Prop(v: Json, key: string): (r: Option<Json>)
    ensures r.Some? <==> v.JObj? && key in v.fields
    ensures r.Some? ==> r.value == v.fields[key]
  {
    if v.JObj? && key in v.fields then Some(v.fields[key]) else None
  }

  /** `typeof p === 'string'` for a property read. */
  predicate IsString(p: Option<Json>) {
    p.Some? && p.value.JStr?
  }

  /** `typeof p === 'boolean'` for a property read. */
  predicate IsBoolean(p: Option<Json>) {
    p.Some? && p.value.JBool?
  }

  /** `Array.isArray(p)` for a property read. */
  predicate IsArray(p: Option<Json>) {
    p.Some? && p.value.JArr?
  }

  /** `!!p` for a property read: `undefined` is falsy. */
  predicate TruthyProp(p: Option<Json>) {
    p.Some? && Truthy(p.value)
  }
}

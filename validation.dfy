/** The few zod checks the schemas of the application are built from:
    `z.string()` (optionally `.min(1, message)` and `.optional()`) and
    `z.array(z.string()).optional()` on one key of an object. Each returns
    the issues it finds, in the order zod reports them. */
module Validation {
  import opened NoteTypes

  /** The single issue zod reports when the body is not an object. */
  const NotAnObjectIssues := [Issue("", InvalidType)]

  /** A key that holds a string accepted by `z.string()`, and by the `.min(1)`
      refinement when `nonEmpty` is set. */
  predicate StringOk(fields: map<string, Json>, key: string, nonEmpty: bool) {
    key in fields && fields[key].JString? && (nonEmpty ==> fields[key].s != "")
  }

  /** The checks of `z.string()` on `key`: absent is `Required` unless the
      field is optional, a non-string is `InvalidType`, and the empty string
      fails `.min(1, message)` when `minMessage` is given. */
  function StringField(fields: map<string, Json>, key: string, optional: bool, minMessage: Option<string>): (issues: seq<Issue>)
    ensures issues == [] <==> (key !in fields && optional) || StringOk(fields, key, minMessage.Some?)
    ensures |issues| <= 1
    ensures forall i :: 0 <= i < |issues| ==> issues[i].path == key
    ensures forall m :: Issue(key, TooSmall(m)) in issues <==>
      minMessage == Some(m) && key in fields && fields[key] == JString("")
  {
    if key !in fields then
      if optional then [] else [Issue(key, Required)]
    else
      match fields[key]
      case JString(s) =>
        if minMessage.Some? && |s| < 1 then [Issue(key, TooSmall(minMessage.value))] else []
      case _ => [Issue(key, InvalidType)]
  }

  /** The check of `z.array(z.string()).optional()` on `key`. */
  function StringArrayField(fields: map<string, Json>, key: string): (issues: seq<Issue>)
    ensures issues == [] <==> key !in fields || fields[key].JStringArray?
    ensures forall i :: 0 <= i < |issues| ==> issues[i] == Issue(key, InvalidType)
  {
    if key in fields && !fields[key].JStringArray? then [Issue(key, InvalidType)] else []
  }

  /** A schema of one required string field, `z.object({key: z.string()})`,
      as the delete and search requests use it. */
  function ValidateStringKey(v: Value, key: string): (r: Validated<string>)
    ensures r.Valid? <==> v.Object? && StringOk(v.fields, key, false)
    ensures r.Valid? ==> r.value == v.fields[key].s
    ensures r.Invalid? ==> |r.issues| == 1
  {
    match v
    case NotAnObject => Invalid(NotAnObjectIssues)
    case Object(fields) =>
      var issues := StringField(fields, key, false, None);
      if issues != [] then Invalid(issues) else Valid(fields[key].s)
  }

  /** The value of an optional string field that passed its check. */
  function OptionalString(fields: map<string, Json>, key: string): Option<string> {
    if key in fields && fields[key].JString? then Some(fields[key].s) else None
  }

  /** The value of an optional string-array field that passed its check. */
  function OptionalStrings(fields: map<string, Json>, key: string): Option<seq<string>> {
    if key in fields && fields[key].JStringArray? then Some(fields[key].items) else None
  }

  /** The object entry `key: value` when the value is present (a value that
      is `undefined` is not sent at all). */
  function EntryIf(key: string, value: Option<Json>): map<string, Json> {
    if value.Some? then map[key := value.value] else map[]
  }
}

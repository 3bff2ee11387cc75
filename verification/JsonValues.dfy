/** JSON values, and how reading a member of one as text fares: jsoncpp throws where a result here is None. */
module JsonValues {
  import opened Options

  // A number carries the text it reads back as.
  datatype Json =
    | Null
    | Bool(value: bool)
    | Number(digits: string)
    | Text(text: string)
    | Array(items: seq<Json>)
    | Object(members: map<string, Json>)

  predicate IsComposite(v: Json) {
    v.Array? || v.Object?
  }

  // Only a null or an object can be asked for a member.
  predicate HasMembers(v: Json) {
    v.Null? || v.Object?
  }

  // Json::Value::get
  function Member(v: Json, key: string, default: Json): Option<Json> {
    match v
    case Null => Some(default)
    case Object(members) => Some(if key in members then members[key] else default)
    case _ => None
  }

  // Json::Value::asString
  function AsString(v: Json): Option<string> {
    match v
    case Null => Some("")
    case Bool(value) => Some(if value then "true" else "false")
    case Number(digits) => Some(digits)
    case Text(text) => Some(text)
    case _ => None
  }

  // get(key, "").asString()
  function ReadText(v: Json, key: string): Option<string> {
    match Member(v, key, Text(""))
    case None => None
    case Some(member) => AsString(member)
  }

  // The key holds an array or an object.
  predicate HoldsComposite(v: Json, key: string) {
    v.Object? && key in v.members && IsComposite(v.members[key])
  }

  // Reading a member as text throws exactly on a value without members, or on a member that is an array or
  // an object.
  lemma ReadTextThrows(v: Json, key: string)
    ensures ReadText(v, key) == None <==> !HasMembers(v) || HoldsComposite(v, key)
  {
  }

  // The text that a member shows: none where the key is absent, or holds null, an array or an object.
  function Shown(v: Json, key: string): string {
    if !v.Object? || key !in v.members then ""
    else
      match v.members[key]
      case Text(text) => text
      case Number(digits) => digits
      case Bool(value) => if value then "true" else "false"
      case _ => ""
  }

  // Where reading a member as text does not throw, it gives what the member shows.
  lemma ReadTextShows(v: Json, key: string)
    ensures ReadText(v, key) == Some(Shown(v, key)) <==>
      v.Null? || (v.Object? && !(key in v.members && (v.members[key].Array? || v.members[key].Object?)))
    ensures ReadText(v, key).Some? ==> ReadText(v, key) == Some(Shown(v, key))
  {
  }
}

/** The parsed JSON document as main.c walks it through jansson's accessors.

    Parsing itself is not modelled; a document is given as a tree.  jansson
    keeps one value per key in an object, so an object is a map.  A number is
    either an integer or a non-integer; for a non-integer the model does not
    fix what jansson's integer accessor yields, so it is carried as data.
 */
module JsonTree {

  datatype Option<T> = None | Some(value: T)

  datatype Json =
    | JObject(fields: map<string, Json>)
    | JArray(items: seq<Json>)
    | JString(text: string)
    | JInteger(number: int)
    | JReal(integerView: int)
    | JTrue
    | JFalse
    | JNull

  /** json_object_get: the member under `key`, or NULL (None) when it is missing. */
  function ObjectGet(fields: map<string, Json>, key: string): (r: Option<Json>)
    ensures r.Some? <==> key in fields
    ensures r.Some? ==> r.value == fields[key]
  {
    if key in fields then Some(fields[key]) else None
  }

  /** json_is_object; false for NULL, like every json_is_* test. */
  predicate IsObject(j: Option<Json>) { j.Some? && j.value.JObject? }

  /** json_is_array */
  predicate IsArray(j: Option<Json>) { j.Some? && j.value.JArray? }

  /** json_is_string */
  predicate IsString(j: Option<Json>) { j.Some? && j.value.JString? }

  /** json_is_number: an integer or a real. */
  predicate IsNumber(j: Option<Json>) { j.Some? && (j.value.JInteger? || j.value.JReal?) }

  /** json_integer_value on a number. */
  function IntegerValue(j: Json): int
    requires j.JInteger? || j.JReal?
  {
    if j.JInteger? then j.number else j.integerView
  }
}

/** The decoded JSON tree that System.Text.Json hands to the grading code,
    and the outcome of deserializing the stored question text into a list. */
module JsonTree {

  const Int32Min: int := -0x8000_0000
  const Int32Max: int := 0x7FFF_FFFF

  /** A value representable as a C# Int32. */
  type Int32 = i: int | Int32Min <= i <= Int32Max

  /** A decoded JSON value. A number whose text is an integer in the Int32
      range is JInt; every other number (a fraction, an exponent, or an
      integer out of range) is JOtherNum, on which GetInt32 throws. Object
      keys are unique and compared ordinally (case-sensitively). */
  datatype Json =
    | JNull
    | JBool(b: bool)
    | JStr(s: string)
    | JInt(i: Int32)
    | JOtherNum
    | JArr(items: seq<Json>)
    | JObj(fields: map<string, Json>)

  /** The text stored in an assessment's Questions column. EmptyText and
      Unparsable are both invalid JSON; they are told apart only because one
      caller tests string.IsNullOrEmpty first. */
  datatype QuestionsText =
    | NullText
    | EmptyText
    | Unparsable
    | Document(root: Json)

  /** What JsonSerializer.Deserialize<List<dynamic>> does with the text. */
  datatype ListDecode =
    | ArgumentNull      // a null text: ArgumentNullException, not a JsonException
    | JsonError         // invalid JSON, or a root that is not an array or null
    | NullList          // the JSON literal null: the call returns null
    | Items(entries: seq<Json>)

  function DeserializeList(t: QuestionsText): (r: ListDecode)
    ensures r.Items? <==> t.Document? && t.root.JArr?
    ensures r.Items? ==> r.entries == t.root.items
    ensures r.NullList? <==> t == Document(JNull)
    ensures r.ArgumentNull? <==> t.NullText?
  {
    match t
    case NullText => ArgumentNull
    case EmptyText => JsonError
    case Unparsable => JsonError
    case Document(root) =>
      match root
      case JNull => NullList
      case JArr(items) => Items(items)
      case _ => JsonError
  }

  /** The outcome of JsonElement.TryGetProperty: it throws on an element
      that is not an object. */
  datatype Lookup = NotAnObject | Absent | Present(value: Json)

  function TryGetProperty(v: Json, key: string): (r: Lookup)
    ensures r.NotAnObject? <==> !v.JObj?
    ensures r.Present? ==> v.JObj? && key in v.fields && v.fields[key] == r.value
    ensures v.JObj? && key in v.fields ==> r.Present?
  {
    match v
    case JObj(fields) => if key in fields then Present(fields[key]) else Absent
    case _ => NotAnObject
  }
}

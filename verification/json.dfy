/** The parsed JSON values the pipeline inspects, as `json.loads` hands them
    back, and the dictionary lookups the extractor performs on them. */
module Json {

  datatype Option<+T> = None | Some(value: T)

  /** A parsed JSON value. `JInt` is a number written without fraction or
      exponent; `JFloat` is any other number. Python's `str()` of a float always
      contains '.', 'e', "inf" or "nan", so no operation here ever reads one as
      a question number or an option number, and its digits are not kept. */
  datatype JValue =
    | JNull
    | JBool(b: bool)
    | JInt(i: int)
    | JFloat
    | JStr(s: string)
    | JArr(items: seq<JValue>)
    | JObj(fields: seq<Field>)

  /** One member of a JSON object. A parsed object lists its members in
      insertion order with distinct keys, as a Python dict does. */
  datatype Field = Field(key: string, value: JValue)

  /** `key in d` followed by `d[key]`: the value bound to `key`, if any. */
  function Lookup(fields: seq<Field>, key: string): (r: Option<JValue>)
    ensures r.Some? <==> exists j :: 0 <= j < |fields| && fields[j].key == key
    ensures r.Some? ==> exists j :: 0 <= j < |fields| && fields[j] == Field(key, r.value)
  {
    if |fields| == 0 then None
    else if fields[0].key == key then Some(fields[0].value)
    else
      var r := Lookup(fields[1..], key);
      assert forall j :: 0 < j < |fields| ==> fields[j] == fields[1..][j - 1];
      r
  }
}

/** The parse-and-normalize half of `get_json_from_image_gemini`: cut the
    reply from its first '[' to its last ']', hand that slice to the JSON
    parser, require a list, and run the spacing corrector over the string
    `question` of every object and over every string among its `options`. */
module QuestionPage {
  import opened Json
  import opened Strings
  import opened Spacing

  /** Where the list is cut out of the stripped reply: the first '[' and the
      last ']', when both exist and the ']' comes after the '['. */
  function BracketSpan(raw: string): (r: Option<(nat, nat)>)
    ensures r.None? <==> '[' !in raw || ']' !in raw
                         || FindLast(raw, ']').value < FindFirst(raw, '[').value
    ensures r.Some? ==> var (a, b) := r.value;
              a < b < |raw| && raw[a] == '[' && raw[b] == ']'
              && '[' !in raw[..a] && ']' !in raw[b + 1..]
  {
    match (FindFirst(raw, '['), FindLast(raw, ']'))
    case (Some(a), Some(b)) => if b > a then Some((a, b)) else None
    case _ => None
  }

  /** The text handed to `json.loads`: `raw[start_index: end_index + 1]`. */
  function BracketSlice(raw: string): (r: Option<string>)
    ensures r.None? <==> BracketSpan(raw).None?
    ensures r.Some? ==> |r.value| >= 2 && r.value[0] == '[' && r.value[|r.value| - 1] == ']'
    ensures r.Some? ==> r.value == raw[BracketSpan(raw).value.0..BracketSpan(raw).value.1 + 1]
  {
    match BracketSpan(raw)
    case None => None
    case Some((a, b)) => Some(raw[a..b + 1])
  }

  /** One element of `options` after normalization. */
  function NormalizeOption(v: JValue): (r: JValue)
    ensures !v.JStr? ==> r == v
    ensures v.JStr? ==> r == JStr(CorrectSpacing(v.s))
    ensures v.JStr? ==> r.JStr? && Skeleton(r.s) == Skeleton(v.s)
  {
    if v.JStr? then JStr(CorrectSpacing(v.s)) else v
  }

  /** One member of a question object after normalization: a string
      `question` and the string elements of a list `options` are corrected,
      everything else is kept. */
  function NormalizeField(f: Field): (r: Field)
    ensures r.key == f.key
    ensures f.key != "question" && f.key != "options" ==> r == f
    ensures f.key == "question" ==>
              r.value == if f.value.JStr? then JStr(CorrectSpacing(f.value.s)) else f.value
    ensures f.key == "options" && !f.value.JArr? ==> r == f
    ensures f.key == "options" && f.value.JArr? ==>
              r.value.JArr? && |r.value.items| == |f.value.items|
              && forall j :: 0 <= j < |f.value.items| ==>
                   r.value.items[j] == NormalizeOption(f.value.items[j])
  {
    if f.key == "question" && f.value.JStr? then
      Field(f.key, JStr(CorrectSpacing(f.value.s)))
    else if f.key == "options" && f.value.JArr? then
      Field(f.key, JArr(seq(|f.value.items|, j requires 0 <= j < |f.value.items| =>
                              NormalizeOption(f.value.items[j]))))
    else f
  }

  /** One list element after normalization: objects have their members
      normalized in place, in order; other values pass through. */
  function NormalizeItem(v: JValue): (r: JValue)
    ensures !v.JObj? ==> r == v
    ensures v.JObj? ==> r.JObj? && |r.fields| == |v.fields|
                        && forall j :: 0 <= j < |v.fields| ==> r.fields[j] == NormalizeField(v.fields[j])
  {
    if v.JObj? then
      JObj(seq(|v.fields|, j requires 0 <= j < |v.fields| => NormalizeField(v.fields[j])))
    else v
  }

  /** What one question page yields: `None` when the model gave no reply, when
      no bracketed span exists, or when the parsed span is not a list;
      otherwise the list, element by element normalized. `parse` stands for
      `json.loads`, with `None` for a `JSONDecodeError`. */
  function ParseQuestionReply(reply: Option<string>, parse: string -> Option<JValue>)
    : (r: Option<seq<JValue>>)
    ensures reply.None? ==> r.None?
    ensures reply.Some? && BracketSlice(Strip(reply.value)).None? ==> r.None?
    ensures reply.Some? && BracketSlice(Strip(reply.value)).Some? ==>
              var parsed := parse(BracketSlice(Strip(reply.value)).value);
              (r.Some? <==> parsed.Some? && parsed.value.JArr?)
              && (r.Some? ==> |r.value| == |parsed.value.items|
                              && forall j :: 0 <= j < |r.value| ==>
                                   r.value[j] == NormalizeItem(parsed.value.items[j]))
  {
    match reply
    case None => None
    case Some(text) =>
      match BracketSlice(Strip(text))
      case None => None
      case Some(slice) =>
        match parse(slice)
        case Some(JArr(items)) =>
          Some(seq(|items|, j requires 0 <= j < |items| => NormalizeItem(items[j])))
        case _ => None
  }

  /** Normalization never touches a member other than `question` and
      `options`, never changes a key, and never changes the type of a value or
      the length of `options`. */
  lemma NormalizeFieldKeepsShape(f: Field)
    ensures NormalizeField(f).value.JStr? == f.value.JStr?
    ensures NormalizeField(f).value.JArr? == f.value.JArr?
    ensures f.value.JArr? ==> |NormalizeField(f).value.items| == |f.value.items|
  {
  }

  /** Looking a key up after normalization finds the normalized form of what
      it found before, and finds nothing where it found nothing. */
  lemma {:induction false} LookupNormalized(fields: seq<Field>, normalized: seq<Field>, key: string)
    requires |normalized| == |fields|
    requires forall j :: 0 <= j < |fields| ==> normalized[j] == NormalizeField(fields[j])
    ensures Lookup(fields, key).None? ==> Lookup(normalized, key).None?
    ensures Lookup(fields, key).Some? ==>
              Lookup(normalized, key) == Some(NormalizeField(Field(key, Lookup(fields, key).value)).value)
    decreases |fields|
  {
    if |fields| > 0 && fields[0].key != key {
      LookupNormalized(fields[1..], normalized[1..], key);
    }
  }
}

/** The answer-key page: the model's reply is unwrapped from an optional
    Markdown fence, parsed as one JSON object, and each member is turned into
    a (question number, option number) pair or dropped. */
module AnswerKey {
  import opened Json
  import opened Strings
  import opened Digits
  import opened Lists

  const FenceOpen: string := "```json"
  const FenceClose: string := "```"

  /** The reply text made ready for parsing: stripped, a leading "```json"
      and a trailing "```" removed, stripped again. */
  function StripFences(text: string): (r: string)
    ensures |r| <= |text|
    ensures r == [] || (!IsSpace(r[0]) && !IsSpace(r[|r| - 1]))
  {
    Strip(DropSuffix(DropPrefix(Strip(text), FenceOpen), FenceClose))
  }

  /** `s` without `prefix` when it starts with it, otherwise `s`. */
  function DropPrefix(s: string, prefix: string): (r: string)
    ensures |r| <= |s|
    ensures StartsWith(s, prefix) ==> s == prefix + r
    ensures !StartsWith(s, prefix) ==> r == s
  {
    if StartsWith(s, prefix) then s[|prefix|..] else s
  }

  /** `s` without `suffix` when it ends with it, otherwise `s`. */
  function DropSuffix(s: string, suffix: string): (r: string)
    ensures |r| <= |s|
    ensures EndsWith(s, suffix) ==> s == r + suffix
    ensures !EndsWith(s, suffix) ==> r == s
  {
    if EndsWith(s, suffix) then s[..|s| - |suffix|] else s
  }

  /** Unwrapping a fenced body gives the body back, stripped. */
  lemma StripFencesOfFenced(body: string)
    ensures StripFences(FenceOpen + body + FenceClose) == Strip(body)
  {
    var text := FenceOpen + body + FenceClose;
    assert text[0] == '`' && text[|text| - 1] == '`';
    StripUnchanged(text);
    assert text[..|FenceOpen|] == FenceOpen;
    var t1 := text[|FenceOpen|..];
    assert t1 == body + FenceClose;
    assert t1[|t1| - |FenceClose|..] == FenceClose;
    assert t1[..|t1| - |FenceClose|] == body;
  }

  /** Unfenced text passes through, stripped. */
  lemma StripFencesOfPlain(text: string)
    requires !StartsWith(Strip(text), FenceOpen) && !EndsWith(Strip(text), FenceClose)
    ensures StripFences(text) == Strip(text)
  {
    var t := Strip(text);
    StripUnchanged(t);
  }

  /** `int(to_english_digits(str(k)))` for a member name: a question number
      exactly when the translated, stripped name is a signed or unsigned
      numeral within the digit limit. */
  function ResolveKey(key: string): (r: Option<int>)
    ensures r.Some? <==> IsNumeral(Strip(ToEnglishDigits(key)))
    ensures r.Some? && Strip(ToEnglishDigits(key))[0] == '-' ==> r.value <= 0
    ensures r.Some? && Strip(ToEnglishDigits(key))[0] != '-' ==> r.value >= 0
    ensures IsDigitString(Strip(ToEnglishDigits(key))) ==> r == ParseDecimal(Strip(ToEnglishDigits(key)))
    ensures r.Some? ==>
              var t := Strip(ToEnglishDigits(key));
              (t[0] == '+' || t[0] == '-') ==>
              r.value == (if t[0] == '-' then -1 else 1) * DecimalValue(t[1..])
  {
    PyInt(ToEnglishDigits(key))
  }

  /** The numeric reading of a value: its text, eastern digits translated
      and stripped, taken when it is a digit string worth 1 to 4. */
  function DigitOption(text: string): (r: Option<int>)
    ensures r.Some? ==> 1 <= r.value <= 4
    ensures r.Some? <==>
              var u := Strip(ToEnglishDigits(text));
              IsDigitString(u) && |u| <= MaxStrDigits && 1 <= DecimalValue(u) <= 4
    ensures r.Some? ==> r.value == DecimalValue(Strip(ToEnglishDigits(text)))
  {
    match ParseDecimal(Strip(ToEnglishDigits(text)))
    case Some(n) => if 1 <= n <= 4 then Some(n) else None
    case None => None
  }

  /** The one spelling of more than one character: the Persian letter name
      of option 1. */
  const Alef: string := "الف"

  /** The letter reading of a stripped string value: the Persian option
      letters, the Latin letters in either case, and the Persian digits. */
  function LetterOption(c: string): (r: Option<int>)
    ensures r.Some? ==> 1 <= r.value <= 4
    ensures r.Some? ==> c == Alef || |c| == 1
    ensures c == Alef ==> r == Some(1)
    ensures |c| == 1 ==> r == LetterOfChar(c[0])
  {
    if c == Alef then Some(1)
    else if |c| == 1 then LetterOfChar(c[0])
    else None
  }

  /** The letter reading of a one-character value. */
  function LetterOfChar(ch: char): (r: Option<int>)
    ensures r.Some? ==> 1 <= r.value <= 4
  {
    if ch == 'a' || ch == 'A' || ch == '۱' then Some(1)
    else if ch == 'ب' || ch == 'b' || ch == 'B' || ch == '۲' then Some(2)
    else if ch == 'ج' || ch == 'c' || ch == 'C' || ch == '۳' then Some(3)
    else if ch == 'د' || ch == 'd' || ch == 'D' || ch == '۴' then Some(4)
    else None
  }

  /** The letter check's table: "الف" and a, A, ۱ are option 1; ب, b, B, ۲
      option 2; ج, c, C, ۳ option 3; د, d, D, ۴ option 4. Every other text,
      of one character or more, has no letter reading. */
  lemma LetterTable(c: string)
    ensures LetterOption(c) == Some(1) <==> c == Alef || (|c| == 1 && c[0] in "aA۱")
    ensures LetterOption(c) == Some(2) <==> |c| == 1 && c[0] in "بbB۲"
    ensures LetterOption(c) == Some(3) <==> |c| == 1 && c[0] in "جcC۳"
    ensures LetterOption(c) == Some(4) <==> |c| == 1 && c[0] in "دdD۴"
    ensures LetterOption(c).None? <==>
              c != Alef && (|c| != 1 || c[0] !in "aA۱بbB۲جcC۳دdD۴")
  {
  }

  /** `str(None)`, `str(True)` and `str(False)` are not numerals. */
  lemma KeywordsHaveNoDigitOption(v: JValue)
    ensures v.JNull? || v.JBool? ==> DigitOption(ValueText(v).value).None?
  {
    if v.JNull? || v.JBool? {
      var t := ValueText(v).value;
      assert t == "None" || t == "True" || t == "False";
      assert forall j :: 0 <= j < |t| ==> 'A' <= t[j] <= 'z';
      LettersHaveNoDigitOption(t);
    }
  }

  /** A word of Latin letters has no numeric reading. */
  lemma LettersHaveNoDigitOption(t: string)
    requires |t| > 0 && forall j :: 0 <= j < |t| ==> 'A' <= t[j] <= 'z'
    ensures Strip(t) == t && DigitOption(t).None?
  {
    ToEnglishDigitsKeepsOtherText(t);
    StripUnchanged(t);
    assert !IsAsciiDigit(t[0]);
  }

  /** The option number a member value denotes: the numeric reading first,
      then, for strings only, the letter reading. Floats, lists, objects,
      booleans and null never denote an option. */
  function ResolveOption(v: JValue): (r: Option<int>)
    ensures r.Some? ==> 1 <= r.value <= 4
    ensures r.Some? ==> v.JInt? || v.JStr?
    ensures v.JStr? && DigitOption(v.s).Some? ==> r == DigitOption(v.s)
    ensures v.JStr? && DigitOption(v.s).None? ==> r == LetterOption(Strip(v.s))
  {
    KeywordsHaveNoDigitOption(v);
    match ValueText(v)
    case None => None
    case Some(t) =>
      match DigitOption(t)
      case Some(n) => Some(n)
      case None =>
        if v.JStr? then LetterOption(Strip(v.s)) else None
  }

  /** An integer value denotes itself when it is 1 to 4, and nothing else. */
  lemma ResolveOptionInt(i: int)
    ensures ResolveOption(JInt(i)) == if 1 <= i <= 4 then Some(i) else None
  {
    ShowIntIsPlain(i);
    if 1 <= i <= 4 {
      ParseShowNat(i);
    } else if i >= 0 {
      if |ShowNat(i)| <= MaxStrDigits {
        ParseShowNat(i);
      }
    }
  }

  /** A value that is one Persian digit from 1 to 4, with whitespace around
      it, has the numeric reading of that digit. */
  lemma PersianDigitOption(s: string, c: char)
    requires IsPersianDigit(c) && 1 <= DigitValue(c) <= 4
    requires Strip(s) == [c]
    ensures DigitOption(s) == Some(DigitValue(c))
  {
    StripTranslate(s);
    PersianDigitParsed(c);
  }

  lemma PersianDigitParsed(c: char)
    requires IsPersianDigit(c) && 1 <= DigitValue(c) <= 4
    ensures ParseDecimal(ToEnglishDigits([c])) == Some(DigitValue(c))
  {
    var d := ToEnglishDigits([c]);
    assert d == [TranslateDigit(c)];
    assert d[..0] == [];
    assert DecimalValue(d) == DigitValue(c);
  }

  lemma PersianDigitStripped(s: string)
    ensures |Strip(s)| == 1 && IsPersianDigit(Strip(s)[0]) && 1 <= DigitValue(Strip(s)[0]) <= 4
            ==> DigitOption(s).Some?
  {
    var c := Strip(s);
    if |c| == 1 && IsPersianDigit(c[0]) && 1 <= DigitValue(c[0]) <= 4 {
      assert c == [c[0]];
      PersianDigitOption(s, c[0]);
    }
  }

  /** The letter reading of the Persian digits 1 to 4. */
  lemma PersianDigitLetters(c: char)
    requires IsPersianDigit(c) && 1 <= DigitValue(c) <= 4
    ensures LetterOption([c]) == Some(DigitValue(c))
  {
    assert [c] != Alef;
  }

  /** The Persian-digit spellings in the letter reading are never reached:
      the numeric reading has already accepted them, with the same number. */
  lemma PersianDigitLettersUnreachable(s: string, c: char)
    requires IsPersianDigit(c) && 1 <= DigitValue(c) <= 4
    requires Strip(s) == [c]
    ensures DigitOption(s).Some?
    ensures ResolveOption(JStr(s)) == DigitOption(s) == LetterOption(Strip(s))
  {
    PersianDigitOption(s, c);
    PersianDigitLetters(c);
  }

  /** The spellings the letter reading accepts, other than the Persian
      digits, hold no digit at all. */
  lemma LettersHaveNoDigits(c: string)
    requires LetterOption(c).Some?
    requires !(|c| == 1 && IsPersianDigit(c[0]))
    ensures forall j :: 0 <= j < |c| ==> !IsAsciiDigit(c[j]) && !IsPersianDigit(c[j]) && !IsArabicIndicDigit(c[j])
  {
  }

  /** Translating digits changes the letter reading only of the Persian
      digits 1 to 4. */
  lemma LetterOptionTranslate(c: string)
    requires !(|c| == 1 && IsPersianDigit(c[0]) && 1 <= DigitValue(c[0]) <= 4)
    ensures LetterOption(ToEnglishDigits(c)) == LetterOption(c)
  {
    var tc := ToEnglishDigits(c);
    if LetterOption(c).Some? {
      LettersHaveNoDigits(c);
      ToEnglishDigitsKeepsOtherText(c);
    } else if LetterOption(tc).Some? {
      LettersHaveNoDigits(tc);
      TranslateWithoutDigits(c);
    }
  }

  lemma DigitOptionTranslate(s: string)
    ensures DigitOption(ToEnglishDigits(s)) == DigitOption(s)
  {
    ToEnglishDigitsIdempotent(s);
  }

  /** Writing a value's digits in Persian or Arabic-Indic instead of ASCII
      never changes the option it denotes. */
  lemma ResolveOptionEasternDigits(s: string)
    ensures ResolveOption(JStr(ToEnglishDigits(s))) == ResolveOption(JStr(s))
  {
    var t := ToEnglishDigits(s);
    ResolveString(s);
    ResolveString(t);
    DigitOptionTranslate(s);
    if DigitOption(s).None? {
      LetterReadingTranslate(s);
    }
  }

  /** A string value is read numerically first, then by letter. */
  lemma ResolveString(t: string)
    ensures ResolveOption(JStr(t)) == if DigitOption(t).Some? then DigitOption(t) else LetterOption(Strip(t))
  {
  }

  lemma LetterReadingTranslate(s: string)
    requires DigitOption(s).None?
    ensures LetterOption(Strip(ToEnglishDigits(s))) == LetterOption(Strip(s))
  {
    StripTranslate(s);
    PersianDigitStripped(s);
    LetterOptionTranslate(Strip(s));
  }

  /** One member: its question number and option number, or `None` when
      either is invalid. */
  function ResolvePair(f: Field): (r: Option<(int, int)>)
    ensures r.Some? <==> ResolveKey(f.key).Some? && ResolveOption(f.value).Some?
    ensures r.Some? ==> r.value == (ResolveKey(f.key).value, ResolveOption(f.value).value)
  {
    match ResolveKey(f.key)
    case None => None
    case Some(q) =>
      match ResolveOption(f.value)
      case None => None
      case Some(o) => Some((q, o))
  }

  /** The loop over the object's members: every valid pair is stored, a later
      pair for the same question number overriding an earlier one. */
  function CleanAnswers(fields: seq<Field>): (r: map<int, int>)
    ensures forall q :: q in r ==> 1 <= r[q] <= 4
    ensures forall q :: q in r <==>
              exists j :: 0 <= j < |fields| && ResolvePair(fields[j]).Some?
                          && ResolvePair(fields[j]).value.0 == q
  {
    var r := Updates(ResolvePair, fields);
    assert forall q :: q in r ==> exists j :: 0 <= j < |fields| && ResolvePair(fields[j]) == Some((q, r[q]));
    r
  }

  /** An invalid member is dropped without disturbing the others. */
  lemma InvalidPairDropped(a: seq<Field>, f: Field, b: seq<Field>)
    requires ResolvePair(f).None?
    ensures CleanAnswers(a + [f] + b) == CleanAnswers(a + b)
  {
    UpdatesAppend(ResolvePair, a + [f], b);
    UpdatesAppend(ResolvePair, a, [f]);
    UpdatesAppend(ResolvePair, a, b);
    assert [f][..0] == [];
  }

  /** The option stored for a question is the one of the last valid member
      naming it. */
  lemma LastPairWins(fields: seq<Field>, j: nat)
    requires j < |fields| && ResolvePair(fields[j]).Some?
    requires forall k :: j < k < |fields| && ResolvePair(fields[k]).Some? ==>
               ResolvePair(fields[k]).value.0 != ResolvePair(fields[j]).value.0
    ensures CleanAnswers(fields)[ResolvePair(fields[j]).value.0] == ResolvePair(fields[j]).value.1
  {
    LastUpdateWins(ResolvePair, fields, j);
  }

  /** A member name that is a plain numeral names that question. */
  lemma ResolveKeyNumeral(n: nat)
    requires |ShowNat(n)| <= MaxStrDigits
    ensures ResolveKey(ShowNat(n)) == Some(n)
  {
    ShowIntIsPlain(n);
    PyIntShowInt(n);
  }

  /** A string value holding a digit from 1 to 4 denotes that option. */
  lemma DigitSpelling(n: nat)
    requires 1 <= n <= 4
    ensures ResolveOption(JStr(ShowNat(n))) == Some(n)
  {
    ShowIntIsPlain(n);
    ParseShowNat(n);
  }

  /** A letter spelling denotes its option: the numeric reading never
      claims it. */
  lemma LetterSpelling(c: string)
    requires LetterOption(c).Some? && !(|c| == 1 && IsPersianDigit(c[0]))
    ensures ResolveOption(JStr(c)) == LetterOption(c)
  {
    LettersHaveNoDigits(c);
    ToEnglishDigitsKeepsOtherText(c);
    StripUnchanged(c);
  }

  const Unknown: string := "z"

  lemma LatinLetterOutsideOptions(ch: char)
    requires 'e' <= ch <= 'z'
    ensures LetterOfChar(ch).None?
  {
  }

  lemma NoReading(c: string)
    requires DigitOption(c).None? && LetterOption(Strip(c)).None?
    ensures ResolveOption(JStr(c)).None?
  {
  }

  /** A value that is neither a numeral from 1 to 4 nor a letter spelling
      denotes nothing. */
  lemma UnknownSpelling()
    ensures ResolveOption(JStr(Unknown)).None?
  {
    var z := Unknown;
    LettersHaveNoDigitOption(z);
    assert z[0] == 'z';
    LatinLetterOutsideOptions('z');
    NoReading(z);
  }

  /** The key `{"1": "الف", "2": "3", "3": "د", "4": "z"}`. */
  const SampleKey: seq<Field> :=
    [Field("1", JStr("الف")), Field("2", JStr("3")), Field("3", JStr("د")), Field("4", JStr(Unknown))]

  lemma SampleKeyFirst()
    ensures ResolvePair(SampleKey[0]) == Some((1, 1))
  {
    var f := SampleKey[0];
    assert f.key == ShowNat(1);
    ResolveKeyNumeral(1);
    LetterSpelling(f.value.s);
  }

  lemma SampleKeySecond()
    ensures ResolvePair(SampleKey[1]) == Some((2, 3))
  {
    var f := SampleKey[1];
    assert f.key == ShowNat(2);
    ResolveKeyNumeral(2);
    assert f.value.s == ShowNat(3);
    DigitSpelling(3);
  }

  lemma SampleKeyThird()
    ensures ResolvePair(SampleKey[2]) == Some((3, 4))
  {
    ThirdMemberKey();
    ThirdMemberValue();
  }

  lemma ThirdMemberKey()
    ensures ResolveKey(SampleKey[2].key) == Some(3)
  {
    assert SampleKey[2].key == ShowNat(3);
    ResolveKeyNumeral(3);
  }

  lemma ThirdMemberValue()
    ensures ResolveOption(SampleKey[2].value) == Some(4)
  {
    var c := SampleKey[2].value.s;
    assert |c| == 1 && c[0] == 'د';
    DalIsFour(c);
  }

  /** The single letter د denotes option 4. */
  lemma DalIsFour(c: string)
    requires |c| == 1 && c[0] == 'د'
    ensures ResolveOption(JStr(c)) == Some(4)
  {
    assert LetterOption(c) == LetterOfChar('د') == Some(4);
    assert !IsPersianDigit(c[0]);
    LetterSpelling(c);
  }

  lemma SampleKeyFourth()
    ensures ResolvePair(SampleKey[3]).None?
  {
    UnknownSpelling();
  }

  lemma SampleUpdatesTwo<A>(f: A -> Option<(int, int)>, x1: A, x2: A)
    requires f(x1) == Some((1, 1)) && f(x2) == Some((2, 3))
    ensures Updates(f, [x1, x2]) == map[1 := 1, 2 := 3]
  {
    UpdatesSingle(f, x1);
    UpdatesSingle(f, x2);
    UpdatesAppend(f, [x1], [x2]);
    assert [x1] + [x2] == [x1, x2];
  }

  lemma SampleUpdates<A>(f: A -> Option<(int, int)>, x1: A, x2: A, x3: A, x4: A)
    requires f(x1) == Some((1, 1)) && f(x2) == Some((2, 3))
    requires f(x3) == Some((3, 4)) && f(x4).None?
    ensures Updates(f, [x1, x2, x3, x4]) == map[1 := 1, 2 := 3, 3 := 4]
  {
    SampleUpdatesTwo(f, x1, x2);
    SampleUpdatesLast(f, x3, x4);
    UpdatesAppend(f, [x1, x2], [x3, x4]);
    assert [x1, x2] + [x3, x4] == [x1, x2, x3, x4];
  }

  lemma SampleUpdatesLast<A>(f: A -> Option<(int, int)>, x3: A, x4: A)
    requires f(x3) == Some((3, 4)) && f(x4).None?
    ensures Updates(f, [x3, x4]) == map[3 := 4]
  {
    UpdatesSingle(f, x3);
    UpdatesSingle(f, x4);
    UpdatesAppend(f, [x3], [x4]);
    assert [x3] + [x4] == [x3, x4];
  }

  /** The sample key: the first three members resolve, the fourth is dropped. */
  lemma CleanAnswersExample()
    ensures CleanAnswers(SampleKey) == map[1 := 1, 2 := 3, 3 := 4]
  {
    SampleKeyFirst();
    SampleKeySecond();
    SampleKeyThird();
    SampleKeyFourth();
    SampleUpdates(ResolvePair, SampleKey[0], SampleKey[1], SampleKey[2], SampleKey[3]);
    assert SampleKey == [SampleKey[0], SampleKey[1], SampleKey[2], SampleKey[3]];
  }

  /** `get_answer_key_json_from_gemini` after the model call: `reply` is the
      reply text, or `None` when there was no usable reply or the call raised;
      `parse` stands for `json.loads`, `None` meaning it raised. Every failure
      gives the empty key. */
  function ExtractAnswerKey(reply: Option<string>, parse: string -> Option<JValue>): (r: map<int, int>)
    ensures forall q :: q in r ==> 1 <= r[q] <= 4
    ensures reply.None? ==> r == map[]
    ensures reply.Some? && StripFences(reply.value) == [] ==> r == map[]
    ensures reply.Some? && StripFences(reply.value) != [] ==>
              match parse(StripFences(reply.value))
              case Some(JObj(fields)) => r == CleanAnswers(fields)
              case _ => r == map[]
  {
    match reply
    case None => map[]
    case Some(text) =>
      var t := StripFences(text);
      if t == [] then map[]
      else
        match parse(t)
        case Some(JObj(fields)) => CleanAnswers(fields)
        case _ => map[]
  }
}

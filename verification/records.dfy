/** Record validation in the main loop: which list elements of a question
    page become question records, how `number` is converted, and how
    `correct_option` is set according to the bold-detection setting. */
module Records {
  import opened Json
  import opened Digits
  import opened Lists
  import opened Strings

  /** A validated question record as it is written out. `correctOption` is
      `JNull` for "unresolved"; outside bold-detection mode it can only become
      an option number through the answer key. `rest` holds the object's
      other members, untouched. */
  datatype Record = Record(number: int, question: JValue, options: seq<JValue>,
                           correctOption: JValue, rest: seq<Field>)

  /** The members validation reads or writes. */
  predicate IsReserved(key: string)
  {
    key == "number" || key == "question" || key == "options" || key == "correct_option"
  }

  /** The members other than the four reserved ones, in order. */
  function OtherFields(fields: seq<Field>): (r: seq<Field>)
    ensures forall j :: 0 <= j < |r| ==> !IsReserved(r[j].key)
    ensures forall f :: f in r <==> f in fields && !IsReserved(f.key)
  {
    if |fields| == 0 then []
    else
      var tail := OtherFields(fields[1..]);
      assert forall f :: f in fields <==> f == fields[0] || f in fields[1..];
      if IsReserved(fields[0].key) then tail else [fields[0]] + tail
  }

  /** `int(to_english_digits(number))`: the value's text, with Persian and
      Arabic-Indic digits translated, read as an integer; `None` where Python
      raises `ValueError`. Only integers and strings can succeed. */
  function NumberOf(v: JValue): (r: Option<int>)
    ensures r.Some? ==> v.JInt? || v.JStr?
    ensures v.JStr? ==> r == PyInt(ToEnglishDigits(v.s))
  {
    match ValueText(v)
    case None => None
    case Some(t) =>
      if v.JNull? || v.JBool? then
        assert t == "None" || t == "True" || t == "False";
        assert ToEnglishDigits(t) == t;
        StripUnchanged(t);
        None
      else PyInt(ToEnglishDigits(t))
  }

  /** An integer `number` keeps its value, unless it is too long for `str()`. */
  lemma NumberOfInt(i: int)
    ensures NumberOf(JInt(i)).Some? <==> |ShowNat(if i >= 0 then i else -i)| <= MaxStrDigits
    ensures NumberOf(JInt(i)).Some? ==> NumberOf(JInt(i)) == Some(i)
  {
    ShowIntIsPlain(i);
    if |ShowNat(if i >= 0 then i else -i)| <= MaxStrDigits {
      PyIntShowInt(i);
    } else {
      var s := ShowInt(i);
      if i < 0 {
        assert s[1..] == ShowNat(-i);
      }
    }
  }

  /** A numeral in Persian or Arabic-Indic digits is read as the same numeral
      in ASCII digits, whitespace around it ignored. */
  lemma NumberOfEasternNumeral(s: string)
    ensures NumberOf(JStr(ToEnglishDigits(s))) == NumberOf(JStr(s))
  {
    ToEnglishDigitsIdempotent(s);
  }

  /** A question number in Persian digits. */
  lemma NumberOfPersianExample()
    ensures NumberOf(JStr("۱۲")) == Some(12)
  {
    assert ToEnglishDigits("۱۲") == "12";
    StripUnchanged("12");
    assert DecimalValue("12") == 12 by {
      assert "12"[..1] == "1";
      assert "1"[..0] == [];
    }
  }

  /** A question number with spaces around it. */
  lemma NumberOfPaddedExample()
    ensures NumberOf(JStr(" 7 ")) == Some(7)
  {
    ToEnglishDigitsKeepsOtherText(" 7 ");
    assert " 7 " == " " + "7" + " ";
    StripPadded(" ", "7", " ");
    assert "7"[..0] == [];
  }

  /** Text that is not a numeral is rejected. */
  lemma NumberOfRejectsText()
    ensures NumberOf(JStr("12a")).None?
  {
    ToEnglishDigitsKeepsOtherText("12a");
    StripUnchanged("12a");
  }

  /** The `correct_option` an accepted record keeps: `None` outside bold
      mode whatever the model sent; in bold mode the model's value, or `None`
      when it sent none. */
  function ResolvedCorrectOption(fields: seq<Field>, bold: bool): (c: JValue)
    ensures !bold ==> c == JNull
    ensures bold && Lookup(fields, "correct_option").None? ==> c == JNull
    ensures bold && Lookup(fields, "correct_option").Some? ==>
              c == Lookup(fields, "correct_option").value
  {
    if !bold then JNull
    else
      match Lookup(fields, "correct_option")
      case Some(c) => c
      case None => JNull
  }

  /** The structural test of the main loop: an object with `number`,
      `question` and `options`, whose `options` is a list of exactly four. */
  predicate HasQuestionShape(item: JValue)
  {
    && item.JObj?
    && Lookup(item.fields, "number").Some?
    && Lookup(item.fields, "question").Some?
    && Lookup(item.fields, "options").Some?
    && Lookup(item.fields, "options").value.JArr?
    && |Lookup(item.fields, "options").value.items| == 4
  }

  /** One list element through the main loop's checks: accepted exactly when it
      has the question shape and its `number` converts; then it carries the
      converted number, the four options and question as sent, and the
      `correct_option` the mode prescribes. */
  function ValidateRecord(item: JValue, bold: bool): (r: Option<Record>)
    ensures r.Some? <==> HasQuestionShape(item)
                         && NumberOf(Lookup(item.fields, "number").value).Some?
    ensures r.Some? ==>
              && r.value.number == NumberOf(Lookup(item.fields, "number").value).value
              && r.value.question == Lookup(item.fields, "question").value
              && JArr(r.value.options) == Lookup(item.fields, "options").value
              && |r.value.options| == 4
              && r.value.correctOption == ResolvedCorrectOption(item.fields, bold)
              && r.value.rest == OtherFields(item.fields)
  {
    if !HasQuestionShape(item) then None
    else
      var fields := item.fields;
      match NumberOf(Lookup(fields, "number").value)
      case None => None
      case Some(n) =>
        Some(Record(n, Lookup(fields, "question").value, Lookup(fields, "options").value.items,
                    ResolvedCorrectOption(fields, bold), OtherFields(fields)))
  }

  /** The loop over one page's list: accepted records in list order, the
      rejected ones simply skipped. */
  function ValidatePage(items: seq<JValue>, bold: bool): (r: seq<Record>)
    ensures |r| <= |items|
    ensures forall k :: 0 <= k < |r| ==>
              exists j :: 0 <= j < |items| && ValidateRecord(items[j], bold) == Some(r[k])
    ensures forall k :: 0 <= k < |r| ==> |r[k].options| == 4
    ensures !bold ==> forall k :: 0 <= k < |r| ==> r[k].correctOption == JNull
  {
    var r := FilterMap((item: JValue) => ValidateRecord(item, bold), items);
    assert forall k :: 0 <= k < |r| ==>
             exists j :: 0 <= j < |items| && ValidateRecord(items[j], bold) == Some(r[k]);
    r
  }

  /** Validation is element-wise: the records of two lists back to back are
      the records of each, back to back. */
  lemma ValidatePageAppend(a: seq<JValue>, b: seq<JValue>, bold: bool)
    ensures ValidatePage(a + b, bold) == ValidatePage(a, bold) + ValidatePage(b, bold)
  {
    FilterMapAppend((item: JValue) => ValidateRecord(item, bold), a, b);
  }

  /** A rejected element never affects its siblings. */
  lemma RejectedLeavesSiblings(a: seq<JValue>, x: JValue, b: seq<JValue>, bold: bool)
    requires ValidateRecord(x, bold).None?
    ensures ValidatePage(a + [x] + b, bold) == ValidatePage(a + b, bold)
  {
    var f := (item: JValue) => ValidateRecord(item, bold);
    FilterMapAppend(f, a + [x], b);
    FilterMapAppend(f, a, [x]);
    FilterMapAppend(f, a, b);
    FilterMapSingle(f, x);
  }

  /** An accepted element contributes exactly its record, in its place. */
  lemma AcceptedKeepsPlace(a: seq<JValue>, x: JValue, b: seq<JValue>, bold: bool)
    requires ValidateRecord(x, bold).Some?
    ensures ValidatePage(a + [x] + b, bold)
            == ValidatePage(a, bold) + [ValidateRecord(x, bold).value] + ValidatePage(b, bold)
  {
    var f := (item: JValue) => ValidateRecord(item, bold);
    FilterMapAppend(f, a + [x], b);
    FilterMapAppend(f, a, [x]);
    FilterMapSingle(f, x);
  }

  /** The object a record is written out as (member order aside). */
  function ToJson(r: Record): JValue
  {
    JObj([Field("number", JInt(r.number)), Field("question", r.question),
          Field("options", JArr(r.options)), Field("correct_option", r.correctOption)] + r.rest)
  }

  /** Looking up a reserved member of a written-out record finds what the
      record holds. */
  lemma WrittenLookups(r: Record)
    requires forall j :: 0 <= j < |r.rest| ==> !IsReserved(r.rest[j].key)
    ensures Lookup(ToJson(r).fields, "number") == Some(JInt(r.number))
    ensures Lookup(ToJson(r).fields, "question") == Some(r.question)
    ensures Lookup(ToJson(r).fields, "options") == Some(JArr(r.options))
    ensures Lookup(ToJson(r).fields, "correct_option") == Some(r.correctOption)
  {
    var fields := ToJson(r).fields;
    assert Lookup(fields[2..], "options") == Some(JArr(r.options));
    assert Lookup(fields[1..], "options") == Lookup(fields[2..], "options");
    assert Lookup(fields[3..], "correct_option") == Some(r.correctOption);
    assert Lookup(fields[2..], "correct_option") == Lookup(fields[3..], "correct_option");
    assert Lookup(fields[1..], "correct_option") == Lookup(fields[2..], "correct_option");
  }

  /** The unreserved members of a written-out record are its `rest`. */
  lemma WrittenRest(r: Record)
    requires forall j :: 0 <= j < |r.rest| ==> !IsReserved(r.rest[j].key)
    ensures OtherFields(ToJson(r).fields) == r.rest
  {
    var fields := ToJson(r).fields;
    var head := fields[..4];
    assert fields == head + r.rest;
    OtherFieldsOfPlain(r.rest);
    OtherFieldsAppend(head, r.rest);
    assert OtherFields(head[3..]) == [];
    assert OtherFields(head[2..]) == [];
    assert OtherFields(head[1..]) == [];
    assert OtherFields(head) == [];
  }

  /** A written-out record validates back to itself in bold mode, and to
      itself with `correct_option` cleared outside bold mode. */
  lemma ValidateWrittenRecord(r: Record, bold: bool)
    requires |r.options| == 4
    requires |ShowNat(if r.number >= 0 then r.number else -r.number)| <= MaxStrDigits
    requires forall j :: 0 <= j < |r.rest| ==> !IsReserved(r.rest[j].key)
    ensures ValidateRecord(ToJson(r), bold) ==
              Some(if bold then r else r.(correctOption := JNull))
  {
    WrittenLookups(r);
    WrittenRest(r);
    NumberOfInt(r.number);
    assert HasQuestionShape(ToJson(r));
  }

  lemma {:induction false} OtherFieldsAppend(a: seq<Field>, b: seq<Field>)
    ensures OtherFields(a + b) == OtherFields(a) + OtherFields(b)
    decreases |a|
  {
    if |a| == 0 {
      assert a + b == b;
    } else {
      assert (a + b)[1..] == a[1..] + b;
      OtherFieldsAppend(a[1..], b);
    }
  }

  lemma {:induction false} OtherFieldsOfPlain(fields: seq<Field>)
    requires forall j :: 0 <= j < |fields| ==> !IsReserved(fields[j].key)
    ensures OtherFields(fields) == fields
    decreases |fields|
  {
    if |fields| > 0 {
      OtherFieldsOfPlain(fields[1..]);
    }
  }
}

/** The main script as a fold over pages: each page is routed by the static
    configuration to the answer-key reader or the question reader, failures
    contribute nothing, and the merge runs once at the end. */
module Pipeline {
  import opened Json
  import opened Lists
  import opened QuestionPage
  import opened Records
  import opened AnswerKey
  import opened Merge
  import opened Digits
  import opened Spacing
  import opened Strings

  /** The run's settings: `bold` is the bold-detection mode; `keyPage` is the
      1-based answer-key page, 0 for none. */
  datatype Config = Config(bold: bool, keyPage: nat)

  datatype PageKind = QuestionPage | AnswerKeyPage

  /** How the page at 0-based position `index` is read. */
  function KindOf(cfg: Config, index: nat): (k: PageKind)
    ensures k == AnswerKeyPage <==> !cfg.bold && cfg.keyPage != 0 && index + 1 == cfg.keyPage
  {
    if !cfg.bold && cfg.keyPage != 0 && index + 1 == cfg.keyPage then AnswerKeyPage else QuestionPage
  }

  /** Bold mode wins, and at most one page is ever read as the key page. */
  lemma AtMostOneKeyPage(cfg: Config, i: nat, j: nat)
    ensures cfg.bold ==> KindOf(cfg, i) == QuestionPage
    ensures cfg.keyPage == 0 ==> KindOf(cfg, i) == QuestionPage
    ensures KindOf(cfg, i) == AnswerKeyPage && KindOf(cfg, j) == AnswerKeyPage ==> i == j
  {
  }

  /** What the main loop has gathered so far: `all_questions` and
      `answer_key`. */
  datatype State = State(questions: seq<Record>, answerKey: map<int, int>)

  /** What one page hands to the loop: records to append and answers to merge
      into the key. */
  datatype Outcome = Outcome(records: seq<Record>, answers: map<int, int>)

  /** One iteration of the page loop: records are appended, answers are merged
      into the key (`dict.update`, later answers overriding earlier ones). */
  function Step(st: State, out: Outcome): (r: State)
    ensures |r.questions| == |st.questions| + |out.records|
    ensures r.questions[..|st.questions|] == st.questions
    ensures forall k :: 0 <= k < |out.records| ==> r.questions[|st.questions| + k] == out.records[k]
    ensures forall q :: q in r.answerKey <==> q in st.answerKey || q in out.answers
    ensures forall q :: q in out.answers ==> r.answerKey[q] == out.answers[q]
    ensures forall q :: q in st.answerKey && q !in out.answers ==> r.answerKey[q] == st.answerKey[q]
  {
    State(st.questions + out.records, st.answerKey + out.answers)
  }

  /** The loop over the outcomes of pages 1 to n, in order: the gathered
      records are the pages' records joined in page order. */
  function Gather(outs: seq<Outcome>): (r: State)
    ensures r.questions == Concat(RecordsOf(outs))
  {
    if |outs| == 0 then State([], map[])
    else
      var n := |outs| - 1;
      assert RecordsOf(outs)[..n] == RecordsOf(outs[..n]);
      Step(Gather(outs[..n]), outs[n])
  }

  function RecordsOf(outs: seq<Outcome>): (r: seq<seq<Record>>)
    ensures |r| == |outs|
    ensures forall i :: 0 <= i < |outs| ==> r[i] == outs[i].records
  {
    seq(|outs|, i requires 0 <= i < |outs| => outs[i].records)
  }

  /** With no page answering, the key stays empty. */
  lemma {:induction false} GatherNoAnswers(outs: seq<Outcome>)
    requires forall i :: 0 <= i < |outs| ==> outs[i].answers == map[]
    ensures Gather(outs).answerKey == map[]
    decreases |outs|
  {
    if |outs| > 0 {
      var n := |outs| - 1;
      GatherNoAnswers(outs[..n]);
      assert Gather(outs[..n]).answerKey + outs[n].answers == map[];
    }
  }

  /** With only page `j` answering, the key is that page's answers. */
  lemma {:induction false} GatherOneAnswer(outs: seq<Outcome>, j: nat)
    requires j < |outs|
    requires forall i :: 0 <= i < |outs| && i != j ==> outs[i].answers == map[]
    ensures Gather(outs).answerKey == outs[j].answers
    decreases |outs|
  {
    var n := |outs| - 1;
    var prev := Gather(outs[..n]).answerKey;
    if j == n {
      GatherNoAnswers(outs[..n]);
      assert prev + outs[n].answers == outs[n].answers;
    } else {
      GatherOneAnswer(outs[..n], j);
      assert prev + outs[n].answers == prev;
    }
  }

  /** When no page supplies a record with an answer, no gathered record has
      one. */
  lemma {:induction false} GatherOpenAnswers(outs: seq<Outcome>)
    requires forall i, k :: 0 <= i < |outs| && 0 <= k < |outs[i].records| ==>
               outs[i].records[k].correctOption == JNull
    ensures forall k :: 0 <= k < |Gather(outs).questions| ==> Gather(outs).questions[k].correctOption == JNull
    decreases |outs|
  {
    if |outs| > 0 {
      var n := |outs| - 1;
      GatherOpenAnswers(outs[..n]);
      var prev := Gather(outs[..n]).questions;
      forall k | 0 <= k < |Gather(outs).questions|
        ensures Gather(outs).questions[k].correctOption == JNull
      {
        if k < |prev| {
          assert Gather(outs).questions[k] == prev[k];
        } else {
          assert Gather(outs).questions[k] == outs[n].records[k - |prev|];
        }
      }
    }
  }

  /** Normalization leaves the members validation keeps untouched. */
  lemma {:induction false} OtherFieldsNormalized(fields: seq<Field>, normalized: seq<Field>)
    requires |normalized| == |fields|
    requires forall j :: 0 <= j < |fields| ==> normalized[j] == NormalizeField(fields[j])
    ensures OtherFields(normalized) == OtherFields(fields)
    decreases |fields|
  {
    if |fields| > 0 {
      OtherFieldsNormalized(fields[1..], normalized[1..]);
      NormalizeFieldKeepsShape(fields[0]);
    }
  }

  /** Normalization keeps the members validation looks at, except that a
      string `question` and a list `options` keep only their shape. */
  lemma NormalizedLookups(v: JValue)
    requires v.JObj?
    ensures Lookup(NormalizeItem(v).fields, "number") == Lookup(v.fields, "number")
    ensures Lookup(NormalizeItem(v).fields, "correct_option") == Lookup(v.fields, "correct_option")
    ensures OtherFields(NormalizeItem(v).fields) == OtherFields(v.fields)
    ensures Lookup(NormalizeItem(v).fields, "question").Some? == Lookup(v.fields, "question").Some?
    ensures Lookup(v.fields, "question").Some? ==>
              Lookup(NormalizeItem(v).fields, "question").value
                == NormalizeField(Field("question", Lookup(v.fields, "question").value)).value
    ensures Lookup(NormalizeItem(v).fields, "options").Some? == Lookup(v.fields, "options").Some?
    ensures Lookup(v.fields, "options").Some? ==>
              Lookup(NormalizeItem(v).fields, "options").value
                == NormalizeField(Field("options", Lookup(v.fields, "options").value)).value
  {
    var n := NormalizeItem(v);
    LookupNormalized(v.fields, n.fields, "number");
    LookupNormalized(v.fields, n.fields, "question");
    LookupNormalized(v.fields, n.fields, "options");
    LookupNormalized(v.fields, n.fields, "correct_option");
    OtherFieldsNormalized(v.fields, n.fields);
    assert |"number"| == 6 && |"correct_option"| == 14 && |"question"| == 8 && |"options"| == 7;
    var num := Lookup(v.fields, "number");
    if num.Some? {
      NormalizeFieldKeepsShape(Field("number", num.value));
    }
    var ans := Lookup(v.fields, "correct_option");
    if ans.Some? {
      NormalizeFieldKeepsShape(Field("correct_option", ans.value));
    }
  }

  /** Normalizing a list element before validation never changes whether it
      is accepted. */
  lemma NormalizedAccepted(v: JValue, bold: bool)
    ensures ValidateRecord(NormalizeItem(v), bold).Some? <==> ValidateRecord(v, bold).Some?
  {
    if v.JObj? {
      NormalizedLookups(v);
      var o := Lookup(v.fields, "options");
      if o.Some? {
        NormalizeFieldKeepsShape(Field("options", o.value));
      }
      assert HasQuestionShape(NormalizeItem(v)) == HasQuestionShape(v);
    }
  }

  /** An accepted element keeps its number, answer and other members through
      normalization. */
  lemma NormalizedRecordKeeps(v: JValue, bold: bool)
    requires ValidateRecord(v, bold).Some?
    ensures ValidateRecord(NormalizeItem(v), bold).Some?
    ensures ValidateRecord(NormalizeItem(v), bold).value.number == ValidateRecord(v, bold).value.number
    ensures ValidateRecord(NormalizeItem(v), bold).value.correctOption
              == ValidateRecord(v, bold).value.correctOption
    ensures ValidateRecord(NormalizeItem(v), bold).value.rest == ValidateRecord(v, bold).value.rest
  {
    NormalizedAccepted(v, bold);
    NormalizedLookups(v);
    var n := NormalizeItem(v);
    assert ResolvedCorrectOption(n.fields, bold) == ResolvedCorrectOption(v.fields, bold);
  }

  /** Through normalization an accepted element's question and options differ
      only by the spacing correction of their texts. */
  lemma NormalizedRecordTexts(v: JValue, bold: bool)
    requires ValidateRecord(v, bold).Some?
    ensures ValidateRecord(NormalizeItem(v), bold).Some?
    ensures ValidateRecord(NormalizeItem(v), bold).value.question
              == NormalizeField(Field("question", ValidateRecord(v, bold).value.question)).value
    ensures |ValidateRecord(NormalizeItem(v), bold).value.options| == 4
    ensures forall j :: 0 <= j < 4 ==>
              ValidateRecord(NormalizeItem(v), bold).value.options[j]
                == NormalizeOption(ValidateRecord(v, bold).value.options[j])
    ensures var q := ValidateRecord(v, bold).value.question;
            ValidateRecord(NormalizeItem(v), bold).value.question
              == if q.JStr? then JStr(CorrectSpacing(q.s)) else q
    ensures forall j :: 0 <= j < 4 ==>
              var o := ValidateRecord(v, bold).value.options[j];
              ValidateRecord(NormalizeItem(v), bold).value.options[j]
                == if o.JStr? then JStr(CorrectSpacing(o.s)) else o
  {
    NormalizedAccepted(v, bold);
    NormalizedLookups(v);
    var r := ValidateRecord(v, bold).value;
    var r' := ValidateRecord(NormalizeItem(v), bold).value;
    assert JArr(r'.options) == NormalizeField(Field("options", JArr(r.options))).value;
  }

  /** What the page at 0-based position `index` hands to the loop: the key
      page only answers; a question page only contributes records, and a
      failed page (no reply, or no usable list in it) contributes nothing. */
  function PageOutcome(cfg: Config, index: nat, reply: Option<string>,
                       parse: string -> Option<JValue>): (r: Outcome)
    ensures KindOf(cfg, index) == AnswerKeyPage ==> r == Outcome([], ExtractAnswerKey(reply, parse))
    ensures KindOf(cfg, index) == QuestionPage ==> r.answers == map[]
    ensures KindOf(cfg, index) == QuestionPage && ParseQuestionReply(reply, parse).None? ==> r.records == []
    ensures KindOf(cfg, index) == QuestionPage && ParseQuestionReply(reply, parse).Some? ==>
              r.records == ValidatePage(ParseQuestionReply(reply, parse).value, cfg.bold)
  {
    match KindOf(cfg, index)
    case AnswerKeyPage => Outcome([], ExtractAnswerKey(reply, parse))
    case QuestionPage =>
      match ParseQuestionReply(reply, parse)
      case None => Outcome([], map[])
      case Some(items) => Outcome(ValidatePage(items, cfg.bold), map[])
  }

  function Outcomes(cfg: Config, replies: seq<Option<string>>,
                    parse: string -> Option<JValue>): (r: seq<Outcome>)
    ensures |r| == |replies|
    ensures forall i :: 0 <= i < |replies| ==> r[i] == PageOutcome(cfg, i, replies[i], parse)
  {
    seq(|replies|, i requires 0 <= i < |replies| => PageOutcome(cfg, i, replies[i], parse))
  }

  /** The main loop over the replies of pages 1 to n. */
  function ProcessPages(cfg: Config, replies: seq<Option<string>>,
                        parse: string -> Option<JValue>): (r: State)
    ensures r.questions == Concat(RecordsOf(Outcomes(cfg, replies, parse)))
  {
    Gather(Outcomes(cfg, replies, parse))
  }

  /** The gathered records are each question page's accepted records, joined
      in page order; the key page and failed pages add none. */
  lemma QuestionsArePageRecords(cfg: Config, replies: seq<Option<string>>,
                                parse: string -> Option<JValue>)
    ensures forall i :: (0 <= i < |replies| && KindOf(cfg, i) == QuestionPage &&
                         ParseQuestionReply(replies[i], parse).Some?) ==>
              RecordsOf(Outcomes(cfg, replies, parse))[i]
                == ValidatePage(ParseQuestionReply(replies[i], parse).value, cfg.bold)
    ensures forall i :: (0 <= i < |replies| &&
                         (KindOf(cfg, i) == AnswerKeyPage || ParseQuestionReply(replies[i], parse).None?)) ==>
              RecordsOf(Outcomes(cfg, replies, parse))[i] == []
  {
  }

  /** The key gathered is what the key page yields, or empty when bold mode
      is on or the key page is not among the replies. */
  lemma AnswerKeyIsKeyPage(cfg: Config, replies: seq<Option<string>>,
                           parse: string -> Option<JValue>)
    ensures !cfg.bold && 0 < cfg.keyPage <= |replies| ==>
              ProcessPages(cfg, replies, parse).answerKey == ExtractAnswerKey(replies[cfg.keyPage - 1], parse)
    ensures !(!cfg.bold && 0 < cfg.keyPage <= |replies|) ==>
              ProcessPages(cfg, replies, parse).answerKey == map[]
  {
    var outs := Outcomes(cfg, replies, parse);
    if !cfg.bold && 0 < cfg.keyPage <= |replies| {
      GatherOneAnswer(outs, cfg.keyPage - 1);
    } else {
      GatherNoAnswers(outs);
    }
  }

  /** Outside bold mode, no gathered record has an answer before the merge. */
  lemma PlainModeLeavesAnswersOpen(cfg: Config, replies: seq<Option<string>>,
                                   parse: string -> Option<JValue>)
    requires !cfg.bold
    ensures forall k :: 0 <= k < |ProcessPages(cfg, replies, parse).questions| ==>
              ProcessPages(cfg, replies, parse).questions[k].correctOption == JNull
  {
    GatherOpenAnswers(Outcomes(cfg, replies, parse));
  }

  /** The whole run: the records written out. */
  function Run(cfg: Config, replies: seq<Option<string>>, parse: string -> Option<JValue>)
    : (r: seq<Record>)
    ensures forall i, j :: 0 <= i < j < |r| ==> r[i].number < r[j].number
    ensures Numbers(r) == Numbers(ProcessPages(cfg, replies, parse).questions)
    ensures forall k :: 0 <= k < |r| ==>
              r[k] == FillFromKey(WithNumber(ProcessPages(cfg, replies, parse).questions, r[k].number),
                                  ProcessPages(cfg, replies, parse).answerKey, cfg.bold)[0]
  {
    var st := ProcessPages(cfg, replies, parse);
    Finalize(st.questions, st.answerKey, cfg.bold)
  }

  /** Outside bold mode every written record has the key's answer for its
      number, or none. */
  lemma RunAnswers(cfg: Config, replies: seq<Option<string>>, parse: string -> Option<JValue>)
    requires !cfg.bold
    ensures forall k :: 0 <= k < |Run(cfg, replies, parse)| ==>
              Run(cfg, replies, parse)[k].correctOption ==
                if Run(cfg, replies, parse)[k].number in ProcessPages(cfg, replies, parse).answerKey
                then JInt(ProcessPages(cfg, replies, parse).answerKey[Run(cfg, replies, parse)[k].number])
                else JNull
  {
    var st := ProcessPages(cfg, replies, parse);
    var r := Run(cfg, replies, parse);
    PlainModeLeavesAnswersOpen(cfg, replies, parse);
    forall k | 0 <= k < |r|
      ensures r[k].correctOption ==
                if r[k].number in st.answerKey then JInt(st.answerKey[r[k].number]) else JNull
    {
      var w := WithNumber(st.questions, r[k].number);
      assert r[k] == FillFromKey(w, st.answerKey, cfg.bold)[0];
      assert w[0] in st.questions;
    }
  }

  // ----- Examples -----

  /** A page whose reply is the empty string yields nothing: there is no
      bracketed span to parse. */
  lemma EmptyReplyYieldsNothing(parse: string -> Option<JValue>)
    ensures ParseQuestionReply(Some(""), parse).None?
  {
    StripUnchanged("");
  }

  lemma GatherThree(outs: seq<Outcome>)
    requires |outs| == 3
    ensures Gather(outs).questions == outs[0].records + outs[1].records + outs[2].records
  {
    var one := outs[..1];
    var two := outs[..2];
    assert one[..0] == [] && two[..1] == one;
    assert Gather(one).questions == outs[0].records;
    assert Gather(two).questions == outs[0].records + outs[1].records;
  }

  /** Over three pages, the gathered records are the three pages' records. */
  lemma ThreePages(cfg: Config, first: Option<string>, second: Option<string>, third: Option<string>,
                   parse: string -> Option<JValue>)
    ensures ProcessPages(cfg, [first, second, third], parse).questions
              == PageOutcome(cfg, 0, first, parse).records + PageOutcome(cfg, 1, second, parse).records
                 + PageOutcome(cfg, 2, third, parse).records
  {
    GatherThree(Outcomes(cfg, [first, second, third], parse));
  }

  /** An empty reply on a question page contributes no record. */
  lemma EmptyPageOutcome(cfg: Config, index: nat, parse: string -> Option<JValue>)
    requires KindOf(cfg, index) == QuestionPage
    ensures PageOutcome(cfg, index, Some(""), parse) == Outcome([], map[])
  {
    EmptyReplyYieldsNothing(parse);
  }

  /** Three pages, the second answering with the empty string, and no key
      page: the gathered records are those of pages 1 and 3, in that order. */
  lemma ThreePagesExample(cfg: Config, first: Option<string>, third: Option<string>,
                          parse: string -> Option<JValue>)
    requires cfg.bold || cfg.keyPage == 0
    ensures ProcessPages(cfg, [first, Some(""), third], parse).questions
              == PageOutcome(cfg, 0, first, parse).records + PageOutcome(cfg, 2, third, parse).records
  {
    ThreePages(cfg, first, Some(""), third, parse);
    EmptyPageOutcome(cfg, 1, parse);
    DropEmptyMiddle(PageOutcome(cfg, 0, first, parse).records, PageOutcome(cfg, 1, Some(""), parse).records,
                    PageOutcome(cfg, 2, third, parse).records);
  }

  lemma DropEmptyMiddle<T>(a: seq<T>, b: seq<T>, c: seq<T>)
    requires b == []
    ensures a + b + c == a + c
  {
  }

  const OptionsAbc: seq<JValue> := [JStr("a"), JStr("b"), JStr("c")]
  const OptionsAbcd: seq<JValue> := OptionsAbc + [JStr("d")]
  /** A question object with only three options. */
  const ShortItem: JValue :=
    JObj([Field("number", JInt(1)), Field("question", JStr("q")), Field("options", JArr(OptionsAbc))])
  /** A complete question object. */
  const FullItem: JValue :=
    JObj([Field("number", JInt(2)), Field("question", JStr("q2")), Field("options", JArr(OptionsAbcd))])
  const ExampleItems: seq<JValue> := [ShortItem, FullItem]
  const FullRecord: Record := Record(2, JStr("q2"), OptionsAbcd, JNull, [])

  lemma ShortItemRejected(bold: bool)
    ensures ValidateRecord(ShortItem, bold).None?
  {
    var fields := ShortItem.fields;
    assert Lookup(fields[2..], "options") == Some(JArr(OptionsAbc));
    assert Lookup(fields[1..], "options") == Lookup(fields[2..], "options");
  }

  lemma FullItemFields()
    ensures Lookup(FullItem.fields, "number") == Some(JInt(2))
    ensures Lookup(FullItem.fields, "question") == Some(JStr("q2"))
    ensures Lookup(FullItem.fields, "options") == Some(JArr(OptionsAbcd))
    ensures OtherFields(FullItem.fields) == []
  {
    var fields := FullItem.fields;
    assert Lookup(fields[2..], "options") == Some(JArr(OptionsAbcd));
    assert Lookup(fields[1..], "options") == Lookup(fields[2..], "options");
    assert OtherFields(fields[2..]) == [];
    assert OtherFields(fields[1..]) == [];
  }

  lemma FullItemAccepted()
    ensures ValidateRecord(FullItem, false) == Some(FullRecord)
  {
    FullItemFields();
    NumberOfInt(2);
    assert HasQuestionShape(FullItem);
    assert NumberOf(JInt(2)) == Some(2);
  }

  /** A member whose text, if any, is ASCII. */
  predicate AsciiField(f: Field)
  {
    && (f.value.JStr? ==> IsAscii(f.value.s))
    && (f.value.JArr? ==> forall j :: 0 <= j < |f.value.items| && f.value.items[j].JStr? ==>
                            IsAscii(f.value.items[j].s))
  }

  /** Normalization keeps a member whose text is ASCII. */
  lemma NormalizeKeepsAsciiField(f: Field)
    requires AsciiField(f)
    ensures NormalizeField(f) == f
  {
    if f.value.JStr? {
      CorrectSpacingKeepsAscii(f.value.s);
    }
    if f.value.JArr? {
      var items := f.value.items;
      forall j | 0 <= j < |items| ensures NormalizeOption(items[j]) == items[j] {
        if items[j].JStr? {
          CorrectSpacingKeepsAscii(items[j].s);
        }
      }
    }
  }

  /** ASCII question objects pass through normalization unchanged. */
  lemma NormalizeKeepsAsciiItem(v: JValue)
    requires v.JObj?
    requires forall j :: 0 <= j < |v.fields| ==> AsciiField(v.fields[j])
    ensures NormalizeItem(v) == v
  {
    forall j | 0 <= j < |v.fields| ensures NormalizeField(v.fields[j]) == v.fields[j] {
      NormalizeKeepsAsciiField(v.fields[j]);
    }
    assert NormalizeItem(v).fields == v.fields;
  }

  lemma ExampleOptionsAscii()
    ensures forall j :: 0 <= j < |OptionsAbcd| ==> OptionsAbcd[j].JStr? && IsAscii(OptionsAbcd[j].s)
  {
    assert forall j :: 0 <= j < 4 ==> |OptionsAbcd[j].s| == 1 && OptionsAbcd[j].s[0] < 'e';
  }

  lemma ShortItemAscii()
    ensures forall j :: 0 <= j < |ShortItem.fields| ==> AsciiField(ShortItem.fields[j])
  {
    ExampleOptionsAscii();
    assert IsAscii("q");
    assert AsciiField(ShortItem.fields[2]);
  }

  lemma FullItemAscii()
    ensures forall j :: 0 <= j < |FullItem.fields| ==> AsciiField(FullItem.fields[j])
  {
    ExampleOptionsAscii();
    assert IsAscii("q2");
    assert AsciiField(FullItem.fields[2]);
  }

  lemma ShortItemNormalized()
    ensures NormalizeItem(ShortItem) == ShortItem
  {
    ShortItemAscii();
    NormalizeKeepsAsciiItem(ShortItem);
  }

  lemma FullItemNormalized()
    ensures NormalizeItem(FullItem) == FullItem
  {
    FullItemAscii();
    NormalizeKeepsAsciiItem(FullItem);
  }

  /** Of a three-option object followed by a complete one, only the complete
      one is accepted. */
  lemma ExampleListValidated()
    ensures ValidatePage(ExampleItems, false) == [FullRecord]
  {
    ShortItemRejected(false);
    FullItemAccepted();
    assert ExampleItems == [ShortItem] + [FullItem];
    ValidatePageAppend([ShortItem], [FullItem], false);
    FilterMapSingle((item: JValue) => ValidateRecord(item, false), ShortItem);
    FilterMapSingle((item: JValue) => ValidateRecord(item, false), FullItem);
  }

  lemma ExampleReplyParsed(reply: Option<string>, parse: string -> Option<JValue>)
    requires reply.Some? && BracketSlice(Strip(reply.value)).Some?
    requires parse(BracketSlice(Strip(reply.value)).value) == Some(JArr(ExampleItems))
    ensures ParseQuestionReply(reply, parse) == Some(ExampleItems)
  {
    ExampleItemsNormal();
    ReplyOfNormalItems(reply, parse, ExampleItems);
  }

  lemma ExampleItemsNormal()
    ensures forall j :: 0 <= j < |ExampleItems| ==> NormalizeItem(ExampleItems[j]) == ExampleItems[j]
  {
    ShortItemNormalized();
    FullItemNormalized();
  }

  /** A reply whose list is already normal is read as that list. */
  lemma ReplyOfNormalItems(reply: Option<string>, parse: string -> Option<JValue>, items: seq<JValue>)
    requires reply.Some? && BracketSlice(Strip(reply.value)).Some?
    requires parse(BracketSlice(Strip(reply.value)).value) == Some(JArr(items))
    requires forall j :: 0 <= j < |items| ==> NormalizeItem(items[j]) == items[j]
    ensures ParseQuestionReply(reply, parse) == Some(items)
  {
    var r := ParseQuestionReply(reply, parse);
    assert r.Some? && |r.value| == |items|;
    assert r.value == items;
  }

  /** A question page whose list holds a three-option object and then a
      complete one yields exactly the complete one's record. */
  lemma QuestionPageExample(cfg: Config, index: nat, reply: Option<string>,
                            parse: string -> Option<JValue>)
    requires !cfg.bold && KindOf(cfg, index) == QuestionPage
    requires reply.Some? && BracketSlice(Strip(reply.value)).Some?
    requires parse(BracketSlice(Strip(reply.value)).value) == Some(JArr(ExampleItems))
    ensures PageOutcome(cfg, index, reply, parse).records == [FullRecord]
  {
    ExampleReplyParsed(reply, parse);
    ExampleListValidated();
  }
}

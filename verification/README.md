# Exam question extractor — post-processing core in Dafny

`extractor.py` turns a scanned Persian multiple-choice exam into a JSON file
of questions. Each page image goes to a vision model. The model answers
either with a JSON list of questions or, on the page the user names as the
answer key, with a JSON object of question number to option. The script then
cleans these replies, validates them, fills in the correct options, sorts and
de-duplicates. This project models that deterministic part. The model
calls themselves are not modelled: each page's reply is an input.

Modules, one per component of the script:

- `Json`: JSON values as `json.loads` returns them (`JValue`; `Field`
  lists for objects, in insertion order), `Option`, key lookup.
- `Strings`: Python's `str.isspace`, `strip`, `startswith`/`endswith`,
  `find`/`rfind`.
- `Digits`: `to_english_digits`, `str()` of a JSON value, and `int()` on text,
  including the 4300-digit limit of `int`/`str` conversion.
- `Spacing`: `correct_common_spacing_errors`. It is a table of seven rewrite
  rules, applied in order. Each rule is one left-to-right, non-overlapping
  scan of the text it is given, as `re.sub` and `str.replace` make.
- `QuestionPage`: the bracket slice of a question reply, its parse, and the
  per-element normalization of `question` and `options`.
- `Records`: the main loop's structural check of one list element, the
  conversion of `number`, and the mode-dependent `correct_option`.
- `AnswerKey`: the answer-key reply. This covers fence removal, parsing, and
  the resolution of each member to a (question, option) pair or to nothing.
- `Lists`: generic folds. These are filter-map, concatenation, and a
  dictionary filled by a loop, where a later key wins.
- `Merge`: filling correct options from the answer key, the stable sort by
  number, and keeping the first record of each number.
- `Pipeline`: page classification, the main loop as a fold over per-page
  outcomes, and the end-to-end `Run`.

The central properties proved:

- **Spacing.** The spacing corrector deletes only whitespace and inserts
  only ZWNJ: the text's "skeleton" is unchanged. It leaves ASCII text alone.
  It is not idempotent; a concrete input is exhibited. Each kind of rule
  has a worked example: "می روم" and "میروم" become "می‌روم" (the two prefix
  passes), "آنها" becomes "آن‌ها" (a literal rewrite) and "کتاب ها" becomes
  "کتاب‌ها" (a suffix pass). The 126 verb stems are stored as 21 roots times
  six endings, in the source's order.
- **Digits and numbers.**
  - `to_english_digits` is idempotent.
  - `int(str(n)) == n` for any integer within the digit limit.
  - Eastern-digit spellings of a number or of an option convert exactly like
    their ASCII spellings.
- **Answer key.**
  - The stored options are always 1 to 4.
  - A member that does not resolve leaves the key as if it were absent.
  - The last member for a question number wins.
  - The Persian-digit arms of the letter check are unreachable.
- **Page validation.**
  - A question record is accepted exactly when the object has the required
    shape and a convertible number.
  - Normalization never changes which elements are accepted.
  - Validation is element-wise: a rejected element never affects its
    neighbours.
- **Final list.**
  - Numbers are strictly increasing.
  - Exactly the accepted numbers appear.
  - The record kept for a number is the first one met in page order, filled
    from the key.
  - Outside bold mode a record's `correct_option` is the key's entry for its
    number, or `null`.

## Model

| member | source | states |
|---|---|---|
| `Digits.TranslateDigit` | extractor.py:15-17 | a Persian or Arabic-Indic digit becomes the ASCII digit of the same value; every other character is kept; no eastern digit is ever produced |
| `Digits.ToEnglishDigits` | extractor.py:12-17 | same length, each character translated on its own, and no Persian or Arabic-Indic digit left |
| `Digits.ToEnglishDigitsIdempotent` | extractor.py:12-17 | translating twice is translating once |
| `Digits.ToEnglishDigitsKeepsOtherText` | extractor.py:12-17 | text without eastern digits is returned unchanged |
| `Digits.ToEnglishDigitsExamples` | extractor.py:12-17 | "۱۲۳" and "١٢٣" both become "123"; "123" is kept |
| `Digits.NormalizedDigitString` | extractor.py:12-17 | the translation is a non-empty ASCII digit string exactly when every character was a digit of one of the three scripts |
| `Digits.StripTranslate` | extractor.py:176 | stripping and digit translation commute |
| `Digits.ValueText` | extractor.py:13-14 | `str()` gives a string back as itself and an integer as its decimal text; `null` and booleans have their keyword texts; floats, lists and objects have no modelled text |
| `Digits.ShowIntIsPlain` | extractor.py:13-14 | the text of an integer carries no padding and no eastern digits |
| `Digits.ShowNat` | extractor.py:175 | the decimal text of a natural number is a digit string without a leading zero, except for 0 itself |
| `Digits.ShowInt` | extractor.py:175 | the text of an integer is a plain digit string exactly when the integer is not negative |
| `Digits.ParseDecimal` | extractor.py:175 | a digit string within the 4300-digit limit reads as a number; any other text does not |
| `Digits.PyInt` | extractor.py:175 | `int()` succeeds exactly on a stripped, optionally signed, digit string within the digit limit; an unsigned digit string reads as its decimal value; with a sign, the value is that of the digits after it, negated for '-' |
| `Digits.ParseShowNat` | extractor.py:175 | reading back the decimal text of a natural number gives that number |
| `Digits.PyIntShowInt` | extractor.py:294 | `int(str(n)) == n` for every integer `n` within the digit limit, negative ones included |
| `Digits.PyIntPlusExample` | extractor.py:175 | `int("+7") == 7` |
| `Digits.PyIntMinusExample` | extractor.py:175 | `int("-007") == -7`: the sign negates and leading zeros are ignored |
| `Digits.PyIntIgnoresPadding` | extractor.py:175 | whitespace around a numeral does not change what `int()` reads |
| `Digits.LeadingZeroValue` | extractor.py:175 | a leading zero does not change the value read |
| `Strings.Strip` | extractor.py:87 | the result is the middle slice of the input, only whitespace is removed on either side, and it neither starts nor ends with whitespace |
| `Strings.IsSpace` | extractor.py:33-39 | `str.isspace` for one character, which is also what `\s` matches |
| `Strings.StartsWith` | extractor.py:161 | `str.startswith` |
| `Strings.EndsWith` | extractor.py:163 | `str.endswith` |
| `Strings.StripPadded` | extractor.py:87 | stripping whitespace padding off an unpadded text gives that text |
| `Strings.StripUnchanged` | extractor.py:165 | text with no whitespace at either end is already stripped |
| `Strings.FindFirst` | extractor.py:88 | `find`: absent exactly when the character does not occur; otherwise the index of its first occurrence |
| `Strings.FindLast` | extractor.py:89 | `rfind`: absent exactly when the character does not occur; otherwise the index of its last occurrence |
| `Json.Lookup` | extractor.py:287-294 | a key is found exactly when some member carries it, and the value found is that member's |
| `Spacing.CorrectSpacing` | extractor.py:21-40 | empty text stays empty; the result differs from the input only in whitespace and ZWNJ (equal skeletons) |
| `Spacing.CorrectSpacingPasses` | extractor.py:33-39 | the corrector is the seven passes in source order, each applied to the previous one's output |
| `Spacing.CorrectSpacingKeepsAscii` | extractor.py:21-40 | ASCII text passes through unchanged |
| `Spacing.CorrectSpacingNotIdempotent` | extractor.py:38 | "x ها ها" becomes "x‌ها ها" and, corrected again, "x‌ها‌ها": a second run changes the first run's output |
| `Spacing.SuffixJoinExample` | extractor.py:38 | "کتاب ها" becomes "کتاب‌ها" |
| `Spacing.BooksSuffixPass` | extractor.py:38 | the "ها" pass alone joins "کتاب ها" |
| `Spacing.FirstSuffixPass` | extractor.py:38 | one scan of the "ها" pass joins only the first of two separated suffixes, because matches do not overlap |
| `Spacing.SecondSuffixPass` | extractor.py:38 | a second scan joins the remaining suffix |
| `Spacing.FirstStem` | extractor.py:24-31 | the stem pattern has 126 alternatives and the first is "روم" |
| `Spacing.BecomeStem` | extractor.py:24 | alternative 13 of the stem pattern is "شود" |
| `Spacing.GapPrefixPass` | extractor.py:33 | the first prefix pass turns "می روم" into "می‌روم" |
| `Spacing.ClosedPrefixPass` | extractor.py:34 | the second prefix pass turns "میروم" into "می‌روم" |
| `Spacing.ClosedSkipsGapPass` | extractor.py:33 | the first prefix pass needs whitespace after the prefix, so it leaves "میروم" alone |
| `Spacing.JoinedSkipsClosedPass` | extractor.py:34 | the second prefix pass leaves the joined "می‌روم" alone |
| `Spacing.JoinedVerbSettled` | extractor.py:35-39 | the last five rules leave "می‌روم" alone |
| `Spacing.GapPrefixExample` | extractor.py:21-40 | the corrector turns "می روم" into "می‌روم" |
| `Spacing.ClosedPrefixExample` | extractor.py:21-40 | the corrector turns "میروم" into "می‌روم" |
| `Spacing.LiteralRewritePass` | extractor.py:36 | the "میشود" rewrite turns "میشود" into "می‌شود" |
| `Spacing.ThosePass` | extractor.py:37 | the "آنها" rewrite turns "آنها" into "آن‌ها" |
| `Spacing.ThoseReachesFourthPass` | extractor.py:33-36 | the first four rules leave "آنها" alone |
| `Spacing.ThoseJoinedSettled` | extractor.py:38-39 | the two suffix passes leave "آن‌ها" alone |
| `Spacing.LiteralRewriteExample` | extractor.py:21-40 | the corrector turns "آنها" into "آن‌ها" |
| `Spacing.StemIndex` | extractor.py:24-34 | the stem chosen is the first one, in the alternation's order, that fits at the position and is followed by a word boundary; no earlier stem fits |
| `Spacing.VerbStems` | extractor.py:24-31 | the 126 alternatives of the stem pattern, in the order the alternation tries them |
| `Spacing.StemEntry` | extractor.py:24-31 | the stem table is 21 roots, each with the six endings "م", "د", "ی", "یم", "ید", "ند" in turn: stem `n` is root `n / 6` with ending `n % 6` |
| `Spacing.StemsStartWithWordChar` | extractor.py:24-31 | every stem is non-empty and starts with a word character |
| `Spacing.StemNeedsWordChar` | extractor.py:33-34 | where no word character stands, no stem of the alternation fits |
| `Spacing.StemStart` | extractor.py:33-34 | the stem starts right after the prefix, past the greedy `\s+` in the first pass; only whitespace is skipped |
| `Spacing.PrefixLength` | extractor.py:33-34 | the group `(می|نمی)`: 2 exactly when "می" starts at the position, 3 only when "نمی" does, 0 exactly when neither does |
| `Spacing.StemFits` | extractor.py:33-34 | one alternative of the stem group followed by `\b` |
| `Spacing.NoPrefixAt` | extractor.py:33-34 | no "می" or "نمی" starts at a character other than their first letters, nor at the last character |
| `Spacing.PrefixMatch` | extractor.py:33-34 | a prefix-rule match exists exactly when there is a word boundary, "می" or "نمی", a whitespace run (non-empty for the first pass, empty for the second) and a stem of the table followed by a word boundary; it ends after the first such stem in table order, and the replacement is the prefix, a ZWNJ and that stem |
| `Spacing.ReplaceMatch` | extractor.py:35-37 | a literal rewrite matches exactly where its target occurs and replaces exactly that span |
| `Spacing.SuffixMatch` | extractor.py:38-39 | a suffix-rule match exists exactly when a non-whitespace character is followed by a non-empty greedy whitespace run, the suffix and a word boundary; it ends after the suffix and is replaced by that character, a ZWNJ and the suffix |
| `Spacing.NoSuffixWithoutSpace` | extractor.py:38-39 | no suffix match starts before a character that is not whitespace |
| `Spacing.ApplySuffixWithoutSpace` | extractor.py:38-39 | a suffix pass leaves text without whitespace unchanged |
| `Spacing.MatchAt` | extractor.py:33-39 | any rule's match ends inside the text, and a well-formed rule's replacement keeps the skeleton |
| `Spacing.Apply` | extractor.py:33-39 | one left-to-right, non-overlapping scan of a rule (`re.sub` or `str.replace`) over the rest of the text; for a well-formed rule the output has the skeleton of the text scanned |
| `Spacing.ApplyFrom` | extractor.py:33-39 | the remaining passes, each over the previous one's output, keep the skeleton of the text |
| `Spacing.ApplyFromStep` | extractor.py:33-39 | the remaining passes are the next pass followed by the ones after it |
| `Spacing.Rules` | extractor.py:33-39 | the seven rules in the order the corrector applies them: the two prefix passes, the three literal rewrites, the two suffix passes |
| `Spacing.RulesWellFormed` | extractor.py:35-37 | each ZWNJ-inserting rewrite ("میشود", "مییابد", "آنها") has a non-empty target whose two halves contain no whitespace and no ZWNJ, so inserting the joiner keeps the skeleton |
| `Spacing.ApplyWithoutMatch` | extractor.py:33-39 | a scan that finds no match returns the text unchanged |
| `Spacing.ApplyWithoutNeededChar` | extractor.py:35-39 | a rule whose pattern needs a character absent from the text leaves the text unchanged |
| `Spacing.JoinKeepsSkeleton` | extractor.py:33 | replacing a run of whitespace inside a span by one ZWNJ keeps that span's skeleton |
| `Spacing.IsWordChar` | extractor.py:33-39 | `\w` of `re`: ASCII letters, digits and '_', and the letters and digits of the Arabic block |
| `Spacing.IsBoundary` | extractor.py:33-39 | `\b`: a word character on exactly one side of the position |
| `Spacing.SpaceRunEnd` | extractor.py:33-39 | greedy `\s+`/`\s*`: the run ends at the end of the text or at the first non-whitespace character, and holds only whitespace |
| `QuestionPage.BracketSpan` | extractor.py:88-90 | absent exactly when there is no '[' or no ']' or the last ']' precedes the first '['; otherwise the first '[' and the last ']' |
| `QuestionPage.BracketSlice` | extractor.py:88-91 | the slice runs from the first '[' through the last ']' inclusive, and exists exactly when the span does |
| `QuestionPage.NormalizeItem` | extractor.py:95-102 | non-objects pass through; an object keeps its length and has each member normalized in place |
| `QuestionPage.NormalizeOption` | extractor.py:100-102 | a string option becomes its spacing correction (same skeleton); any other option is kept |
| `QuestionPage.NormalizeField` | extractor.py:97-102 | every member keeps its key; a string `question` becomes its spacing correction; each element of a list `options` is normalized as an option, keeping the length; a non-string `question`, a non-list `options` and every other member are unchanged |
| `QuestionPage.NormalizeFieldKeepsShape` | extractor.py:97-102 | normalization keeps the kind of each value (string, list) and the length of every list |
| `QuestionPage.LookupNormalized` | extractor.py:97-102 | a key is present after normalization exactly when before, with its value normalized |
| `QuestionPage.ParseQuestionReply` | extractor.py:86-112 | no reply or no bracket span gives nothing; otherwise a list comes back exactly when the parsed span is a list, element by element normalized |
| `Records.OtherFields` | extractor.py:303 | the members carried along are exactly those not named `number`, `question`, `options` or `correct_option` |
| `Records.HasQuestionShape` | extractor.py:287-292 | the structural test: an object with `number`, `question` and `options`, whose `options` is a list of exactly four |
| `Records.NumberOf` | extractor.py:294 | only an integer or a string can yield a number; a string yields `int(to_english_digits(s))` |
| `Records.NumberOfInt` | extractor.py:294 | an integer `number` converts to itself, and fails only beyond the digit limit |
| `Records.NumberOfEasternNumeral` | extractor.py:294 | a `number` spelled with eastern digits converts like its ASCII spelling |
| `Records.NumberOfPersianExample` | extractor.py:294 | "۱۲" converts to 12 |
| `Records.NumberOfPaddedExample` | extractor.py:294 | " 7 " converts to 7 |
| `Records.NumberOfRejectsText` | extractor.py:305-307 | "12a" does not convert, so the element is skipped |
| `Records.ResolvedCorrectOption` | extractor.py:295-301 | outside bold mode the option is `null`; in bold mode it is the reply's `correct_option`, or `null` when that is missing |
| `Records.ValidateRecord` | extractor.py:286-307 | an element is accepted exactly when it is an object with `number`, `question` and a four-element `options` list, and its number converts; the record then carries the converted number, the texts as sent, the mode's option and all other members |
| `Records.ValidatePage` | extractor.py:284-310 | every record comes from an accepted element; every record has four options; outside bold mode none has a correct option |
| `Records.ValidatePageAppend` | extractor.py:286-310 | the records of two lists back to back are the records of each, back to back |
| `Records.RejectedLeavesSiblings` | extractor.py:305-310 | a rejected element changes nothing about the others |
| `Records.AcceptedKeepsPlace` | extractor.py:303 | an accepted element's record sits between the records of its neighbours |
| `Records.ToJson` | extractor.py:294-303 | the record written out: an object with `number`, `question`, `options` and `correct_option` ahead of the reply's other members |
| `Records.WrittenLookups` | extractor.py:352 | a record written out as an object holds its number, question, options and option under their keys |
| `Records.WrittenRest` | extractor.py:352 | the written object carries the record's other members unchanged |
| `Records.ValidateWrittenRecord` | extractor.py:286-303 | a written record, read back by the main loop, validates to itself, with its option reset outside bold mode |
| `AnswerKey.StripFences` | extractor.py:160-165 | the result is no longer than the reply and has no whitespace at either end |
| `AnswerKey.StripFencesOfFenced` | extractor.py:161-165 | a body wrapped in "```json" … "```" is recovered, stripped |
| `AnswerKey.StripFencesOfPlain` | extractor.py:160-165 | unfenced text is only stripped |
| `AnswerKey.DropPrefix` | extractor.py:161-162 | a text that starts with the prefix is the prefix followed by the result; any other text is kept |
| `AnswerKey.DropSuffix` | extractor.py:163-164 | a text that ends with the suffix is the result followed by the suffix; any other text is kept |
| `AnswerKey.DigitOption` | extractor.py:176-179 | a numeric reading exists exactly when the translated, stripped text is a digit string within the digit limit whose value is 1 to 4, and it is that value |
| `AnswerKey.LetterOption` | extractor.py:180-189 | a letter reading lies in 1 to 4; "الف" reads as 1; a single character reads as its table entry; any other text has no reading |
| `AnswerKey.LetterOfChar` | extractor.py:182-188 | the reading of one character, when there is one, lies in 1 to 4 |
| `AnswerKey.LetterTable` | extractor.py:180-189 | the whole table in both directions: "الف", a, A, ۱ give 1; ب, b, B, ۲ give 2; ج, c, C, ۳ give 3; د, d, D, ۴ give 4; every other text gives nothing |
| `AnswerKey.KeywordsHaveNoDigitOption` | extractor.py:176-178 | the texts of `null`, `true` and `false` are not numerals |
| `AnswerKey.ResolveOption` | extractor.py:176-189 | an option is found only for integers and strings and lies in 1 to 4; for a string the numeric reading is tried first, then the letter reading |
| `AnswerKey.ResolveOptionInt` | extractor.py:176-179 | an integer denotes itself exactly when it is 1 to 4 |
| `AnswerKey.PersianDigitOption` | extractor.py:176-179 | a padded Persian digit 1 to 4 has the numeric reading of its value |
| `AnswerKey.PersianDigitLettersUnreachable` | extractor.py:182-188 | the Persian-digit spellings in the letter check are never reached: the numeric check has already accepted them with the same number |
| `AnswerKey.ResolveOptionEasternDigits` | extractor.py:176-189 | writing a value's digits in Persian or Arabic-Indic never changes the option it denotes |
| `AnswerKey.ResolveKey` | extractor.py:175 | a member name gives a question number exactly when, after digit translation and stripping, it is an optionally signed numeral within the digit limit; unsigned it reads as its decimal value, signed as the value of the digits after the sign, negated for '-' |
| `AnswerKey.ResolvePair` | extractor.py:173-197 | a member yields a pair exactly when both its key and its value resolve, and the pair is those two results |
| `AnswerKey.CleanAnswers` | extractor.py:172-198 | every stored option is 1 to 4, and a question number is stored exactly when some member resolves to it |
| `AnswerKey.InvalidPairDropped` | extractor.py:190-197 | a member that does not resolve leaves the key as if it were absent |
| `AnswerKey.LastPairWins` | extractor.py:190-191 | the value stored for a question number is that of the last member resolving to it |
| `AnswerKey.ResolveKeyNumeral` | extractor.py:175 | the decimal text of a number resolves to that number |
| `AnswerKey.DigitSpelling` | extractor.py:178-179 | "1" to "4" as strings denote options 1 to 4 |
| `AnswerKey.LetterSpelling` | extractor.py:180-189 | any spelling the letter check accepts, other than a Persian digit, resolves to the letter check's option |
| `AnswerKey.UnknownSpelling` | extractor.py:190-194 | "z" denotes nothing, so its member is dropped |
| `AnswerKey.CleanAnswersExample` | extractor.py:172-198 | `{"1": "الف", "2": "3", "3": "د", "4": "z"}` becomes `{1: 1, 2: 3, 3: 4}` |
| `AnswerKey.ExtractAnswerKey` | extractor.py:159-207 | no reply, an empty text after fence removal, a parse error or a non-object gives an empty key; otherwise the cleaned members; every option is 1 to 4 |
| `Lists.LastUpdateWins` | extractor.py:191 | in a dictionary filled by a loop, a key holds the value of the last element that names it |
| `Lists.UpdatesAppend` | extractor.py:273 | filling from two runs gives the first run's dictionary updated by the second's |
| `Lists.Updates` | extractor.py:172-191 | every stored key comes from an element that produced that pair, and every produced key is stored |
| `Lists.FilterMap` | extractor.py:284-303 | a loop that appends accepted elements yields no more results than inputs, each the image of some input |
| `Lists.FilterMapAppend` | extractor.py:284-303 | filtering two runs back to back gives the two results back to back |
| `Lists.Concat` | extractor.py:303 | every element of every list is in the result, and every element of the result comes from one of the lists |
| `Lists.ConcatAppend` | extractor.py:303 | joining one more list appends it at the end |
| `Merge.FillOne` | extractor.py:322-326 | filling keeps number, texts and other members; a number in the key gets the key's option, any other record is unchanged |
| `Merge.FillFromKey` | extractor.py:319-326 | outside bold mode and with a non-empty key every record is filled; otherwise the list is unchanged |
| `Merge.FillKeepsNumbers` | extractor.py:319-326 | filling commutes with selecting the records of one number |
| `Merge.FillAll` | extractor.py:322-326 | every record is filled from the key in place |
| `Merge.FillAllKeepsNumbers` | extractor.py:322-326 | filling every record commutes with selecting the records of one number |
| `Merge.SortByNumber` | extractor.py:341 | the result is sorted by number and is a permutation of the input |
| `Merge.Insert` | extractor.py:341 | inserting adds exactly the one record to the list's contents |
| `Merge.InsertStable` | extractor.py:341 | insertion places the new record before the records of equal number already there and leaves the order of the others |
| `Merge.InsertSorted` | extractor.py:341 | inserting into a sorted list keeps it sorted |
| `Merge.SortStable` | extractor.py:341 | the sort is stable: the records of each number keep their relative order |
| `Merge.KeepFirstDistinct` | extractor.py:342-346 | no number is kept twice |
| `Merge.KeepFirstNumbers` | extractor.py:342-346 | the kept numbers are exactly the input's numbers not already seen |
| `Merge.KeepFirstIsFirst` | extractor.py:342-346 | the record kept for a number is the first record with that number |
| `Merge.KeepFirstIncreasing` | extractor.py:341-346 | from a sorted list, the kept numbers strictly increase |
| `Merge.KeepFirstFrom` | extractor.py:342-346 | the dedup loop from a set of numbers already seen: no longer than its input, and every kept record comes from the input with a number not seen before |
| `Merge.KeepFirst` | extractor.py:339-346 | the kept numbers are the input's numbers, each record is the first of its number, and they increase when the input is sorted |
| `Merge.Finalize` | extractor.py:319-346 | no questions give no output; numbers strictly increase; exactly the input's numbers appear; each kept record is the first of its number in page order, filled from the key |
| `Merge.FinalizeNumbers` | extractor.py:319-341 | filling and sorting keep the set of numbers |
| `Merge.ExampleFill` | extractor.py:319-326 | with key {1: 2, 2: 4} two open questions get options 4 and 2 in place |
| `Merge.ExampleSort` | extractor.py:341 | questions 2, 1 sort to 1, 2 |
| `Merge.ExampleKeep` | extractor.py:342-346 | distinct numbers are all kept |
| `Merge.MergeExample` | extractor.py:319-346 | questions 2, 1 with key {1: 2, 2: 4} come out as 1, 2 with options 2 and 4 |
| `Merge.DuplicateExample` | extractor.py:338-346 | of two questions numbered 5, the first one met is kept |
| `Pipeline.KindOf` | extractor.py:268 | a page is the answer-key page exactly when not in bold mode, a key page is set, and its 1-based number is that page |
| `Pipeline.AtMostOneKeyPage` | extractor.py:268 | in bold mode or with no key page every page is a question page, and at most one page is the key page |
| `Pipeline.Step` | extractor.py:263-303 | one page appends its records after those gathered so far and updates the key, the page's pairs overriding earlier ones |
| `Pipeline.Gather` | extractor.py:263-303 | the page loop as a fold of `Step`; the gathered questions are the pages' records concatenated in page order |
| `Pipeline.GatherOneAnswer` | extractor.py:268-273 | when only one page contributes answers, the key is that page's answers |
| `Pipeline.GatherNoAnswers` | extractor.py:259-273 | when no page contributes answers, the key stays empty |
| `Pipeline.GatherOpenAnswers` | extractor.py:296-297 | if no page yields a record with an option, no gathered record has one |
| `Pipeline.PageOutcome` | extractor.py:268-313 | the key page contributes its cleaned key and no records; a question page contributes no answers and the validated records of its parsed list, or none |
| `Pipeline.Outcomes` | extractor.py:263-264 | one outcome per page, in page order |
| `Pipeline.ProcessPages` | extractor.py:263-316 | the main loop over all replies: the gathered questions are the per-page records in page order |
| `Pipeline.QuestionsArePageRecords` | extractor.py:263-313 | a question page with a parsed list contributes its validated records; key pages and failed pages contribute nothing |
| `Pipeline.AnswerKeyIsKeyPage` | extractor.py:268-278 | the final key is the key page's cleaned key when that page exists and the mode is not bold, and empty otherwise |
| `Pipeline.PlainModeLeavesAnswersOpen` | extractor.py:296-297 | outside bold mode every gathered question has a `null` option before the key is applied |
| `Pipeline.NormalizedLookups` | extractor.py:97-102 | normalization keeps `number`, `correct_option` and the other members, and keeps `question` and `options` present exactly when they were, normalized |
| `Pipeline.NormalizedAccepted` | extractor.py:286-292 | normalization never changes whether an element is accepted |
| `Pipeline.NormalizedRecordKeeps` | extractor.py:294-303 | an accepted element's number, option and other members are the same with or without normalization |
| `Pipeline.NormalizedRecordTexts` | extractor.py:97-102 | an accepted element's question and four options are, after normalization, the spacing corrections of the string ones and unchanged otherwise |
| `Pipeline.Run` | extractor.py:263-346 | the output numbers strictly increase and are exactly the numbers of the accepted questions; the record written for a number is the first one met in page order, filled from the key |
| `Pipeline.RunAnswers` | extractor.py:319-326 | outside bold mode each output question's option is the key's entry for its number, or `null` when the key has none |
| `Pipeline.EmptyReplyYieldsNothing` | extractor.py:88-90 | an empty reply has no bracket span and yields nothing |
| `Pipeline.ThreePagesExample` | extractor.py:263-313 | over three question pages whose middle reply is empty, the questions are those of the first and third pages, in that order |
| `Pipeline.ShortItemRejected` | extractor.py:287-292 | an object with three options is rejected |
| `Pipeline.FullItemAccepted` | extractor.py:286-303 | a complete object with number 2 yields the record with number 2, its texts, and a `null` option |
| `Pipeline.ExampleListValidated` | extractor.py:284-310 | of a three-option object followed by a complete one, only the complete one is kept |
| `Pipeline.ExampleReplyParsed` | extractor.py:86-103 | a reply whose bracket span parses to that list yields it unchanged, the texts being ASCII |
| `Pipeline.QuestionPageExample` | extractor.py:282-310 | such a page contributes exactly the complete object's record |

## Left out

- The vision-model calls, prompts, image encoding and the `response.parts` test are not modelled (extractor.py:49-85, 122-158). Each page's reply is an input `Option<string>`, where `None` stands for no usable response or any exception.
- `json.loads` is a parameter `parse: string -> Option<JValue>`, with `None` for `JSONDecodeError`. Objects are member lists whose keys are assumed distinct, as `json.loads` keeps only the last of duplicate keys. Floats are one `JFloat` constructor without a payload; `str()` of a float is never a digit string, so only that fact matters.
- Reading the user's input, converting the PDF, the one-second sleep, logging, and writing the output file are not modelled (extractor.py:216-257, 315-316, 350-355). The settings are a `Config` of the bold flag and the key-page number. The unparsable setting of lines 243-245 is the same as `Config(false, 0)`.
- `Records.ToJson` writes members in the order number, question, options, correct_option, rest. The source keeps the reply's key order and `json.dump` formatting. Neither affects any property stated here.
- Digits.PyInt: `int()` is narrowed to an optional sign followed by ASCII digits, after stripping. Python also accepts underscores between digits and decimal digits of other scripts (Devanagari, for example). Such text is rejected here.
- AnswerKey.DigitOption: `str.isdigit` and `int()` are narrowed to ASCII digits after translation. For decimal digits of other scripts, such as Devanagari "३" or fullwidth "３", both `isdigit()` and `int()` succeed in Python, so the source stores option 3 where the model drops the member. Superscript digits such as "³" pass `isdigit` but make `int()` raise `ValueError`; the source then drops the member, and so does the model.
- Spacing.StemIndex: `\w` (used by `\b`) is narrowed to ASCII letters, digits and '_' plus the letters and digits of the Arabic block (U+0600 to U+06FF). Every other non-ASCII character is a non-word character here, although Python's `\w` also accepts accented Latin letters ("é"), letters and digits of other scripts, and other numeric characters ("²", "½").
- The number-less branch of the dedup loop (extractor.py:347-348) cannot be reached, since every accepted record has an integer number; the model has no such record.
- The sort key's `float('inf')` default (extractor.py:341) is never used, for the same reason.
- The counts and warnings printed at extractor.py:274-278, 311-313, 320-335 are not modelled.
- `automator.py` is not part of this model.

## Notes on the code as written

- The spacing corrector is not idempotent. Its "ها" and "ای" passes cannot join two consecutive separated suffixes in one scan, because the matches do not overlap (`Spacing.CorrectSpacingNotIdempotent`).
- The main loop does not check that `question` is a non-empty string or even a string. Any value under that key is accepted, and the model accepts it too.
- The answer key overwrites `correct_option` rather than filling only missing values (extractor.py:325). Outside bold mode every record already holds `null` at that point (`Pipeline.PlainModeLeavesAnswersOpen`), so the overwrite only ever fills.
- In the letter check, the Persian digits "۱" to "۴" are dead alternatives. The numeric check before it has already accepted them (`AnswerKey.PersianDigitLettersUnreachable`).

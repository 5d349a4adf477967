/** The spacing corrector `correct_common_spacing_errors`: a fixed table of
    rewrite rules applied in order. Two regular-expression passes put a
    zero-width non-joiner (ZWNJ) between the prefixes "می"/"نمی" and a closed
    set of verb stems, three literal `str.replace` rewrites fix known spellings,
    and two regular-expression passes join a whitespace-separated "ها"/"ای" to
    the preceding token. Every `re.sub` and `str.replace` is one left-to-right,
    non-overlapping scan over the original text (`Apply`). */
module Spacing {
  import opened Json
  import opened Strings

  const ZWNJ: char := '\U{200C}'
  const Mi: string := "می"
  const Nami: string := "نمی"

  /** The roots of the verb stems of the two prefix rules, in table order. */
  const Roots: seq<string> := [
      "رو", "کن", "شو", "ده", "زن", "گیر", "گوی", "دار", "باش", "آی", "توان",
      "یاب", "ساز", "پذیر", "گرد", "بین", "دان", "نویس", "خوان", "خواه", "بر"
    ]

  /** The present-tense person endings, in the order each root lists them. */
  const Endings: seq<string> := ["م", "د", "ی", "یم", "ید", "ند"]

  /** Every root followed by each ending in turn, root by root. */
  function Conjugate(roots: seq<string>): (r: seq<string>)
    ensures |r| == 6 * |roots|
  {
    seq(6 * |roots|, n requires 0 <= n < 6 * |roots| => roots[n / 6] + Endings[n % 6])
  }

  /** The verb stems of the two prefix rules, in the order the pattern's
      alternation tries them. */
  const VerbStems: seq<string> := Conjugate(Roots)

  /** The table holds 21 roots with six endings each, in source order:
      stem `n` is root `n / 6` with ending `n % 6`. */
  lemma StemEntry(n: nat)
    requires n < |VerbStems|
    ensures |VerbStems| == 126
    ensures VerbStems[n] == Roots[n / 6] + Endings[n % 6]
  {
  }

  /** Python `re`'s `\w` (a Unicode letter or digit, or '_'), for the ASCII
      range and the Arabic block that Persian text is written in. Letters of
      other scripts are not word characters in this model. */
  predicate IsWordChar(c: char)
  {
    || ('a' <= c <= 'z') || ('A' <= c <= 'Z') || ('0' <= c <= '9') || c == '_'
    || ('\U{0620}' <= c <= '\U{064A}')   // Arabic letters, tatweel
    || ('\U{0660}' <= c <= '\U{0669}')   // Arabic-Indic digits
    || ('\U{066E}' <= c <= '\U{066F}')
    || ('\U{0671}' <= c <= '\U{06D3}')   // extended letters: پ چ ژ ک گ ی ...
    || c == '\U{06D5}'
    || ('\U{06E5}' <= c <= '\U{06E6}')
    || ('\U{06EE}' <= c <= '\U{06FC}')   // incl. Persian digits
    || c == '\U{06FF}'
  }

  /** There is a word character at index `k` of `s`. */
  predicate WordAt(s: string, k: int)
  {
    0 <= k < |s| && IsWordChar(s[k])
  }

  /** `\b` at position `k`: a word character on exactly one side. */
  predicate IsBoundary(s: string, k: int)
  {
    WordAt(s, k - 1) != WordAt(s, k)
  }

  /** `s[k..]` begins with `t`. */
  predicate OccursAt(s: string, k: nat, t: string)
  {
    k + |t| <= |s| && s[k..k + |t|] == t
  }

  /** The end of the run of whitespace that starts at `j`: what a greedy `\s*`
      consumes. */
  function SpaceRunEnd(s: string, j: nat): (k: nat)
    requires j <= |s|
    ensures j <= k <= |s|
    ensures forall m :: j <= m < k ==> IsSpace(s[m])
    ensures k == |s| || !IsSpace(s[k])
    decreases |s| - j
  {
    if j == |s| || !IsSpace(s[j]) then j else SpaceRunEnd(s, j + 1)
  }

  /** Stem `t` matches at `k` and is followed by `\b`. */
  predicate StemFits(s: string, k: nat, t: string)
  {
    OccursAt(s, k, t) && IsBoundary(s, k + |t|)
  }

  /** The alternation over `stems[n..]` followed by `\b`, with the
      backtracking of `re`: the first stem, in table order, that fits. */
  function StemIndex(stems: seq<string>, s: string, k: nat, n: nat): (r: Option<nat>)
    requires n <= |stems|
    ensures r.Some? ==> n <= r.value < |stems| && StemFits(s, k, stems[r.value])
                        && forall m :: n <= m < r.value ==> !StemFits(s, k, stems[m])
    ensures r.None? ==> forall m :: n <= m < |stems| ==> !StemFits(s, k, stems[m])
    decreases |stems| - n
  {
    if n == |stems| then None
    else if StemFits(s, k, stems[n]) then Some(n)
    else StemIndex(stems, s, k, n + 1)
  }

  /** One rule of the correction table. */
  datatype Rule =
      /** `re.sub(r'\b(می|نمی)\s+(<stems>)\b', r'\1<ZWNJ>\2', text)` when `gap`,
          `re.sub(r'\b(می|نمی)(<stems>)\b', r'\1<ZWNJ>\2', text)` otherwise */
    | JoinPrefix(gap: bool)
      /** `text.replace(before + after, before + <ZWNJ> + after)` */
    | InsertJoiner(before: string, after: string)
      /** `re.sub(r'(\S)\s+(<suffix>)\b', r'\1<ZWNJ><suffix>', text)` */
    | JoinSuffix(suffix: string)

  /** The correction table, in the order the rules are applied. */
  const Rules: seq<Rule> := [
      JoinPrefix(true),
      JoinPrefix(false),
      InsertJoiner("می", "یابد"),    // "مییابد" -> "می‌یابد"
      InsertJoiner("می", "شود"),     // "میشود"  -> "می‌شود"
      InsertJoiner("آن", "ها"),      // "آنها"   -> "آن‌ها"
      JoinSuffix("ها"),
      JoinSuffix("ای")
    ]

  /** A match found at some position: where it ends and what replaces it. */
  datatype Match = Match(end: nat, replacement: string)

  /** What is left of `s` once every whitespace character and every ZWNJ is
      deleted. */
  function Skeleton(s: string): (r: string)
    ensures |r| <= |s|
  {
    if |s| == 0 then []
    else (if IsSpace(s[0]) || s[0] == ZWNJ then [] else [s[0]]) + Skeleton(s[1..])
  }

  lemma {:induction false} SkeletonAppend(a: string, b: string)
    ensures Skeleton(a + b) == Skeleton(a) + Skeleton(b)
    decreases |a|
  {
    if |a| > 0 {
      assert (a + b)[0] == a[0];
      assert (a + b)[1..] == a[1..] + b;
      SkeletonAppend(a[1..], b);
    } else {
      assert a + b == b;
    }
  }

  /** Text with no whitespace and no ZWNJ is its own skeleton. */
  lemma {:induction false} SkeletonOfPlain(s: string)
    requires forall m :: 0 <= m < |s| ==> !IsSpace(s[m]) && s[m] != ZWNJ
    ensures Skeleton(s) == s
    decreases |s|
  {
    if |s| > 0 {
      SkeletonOfPlain(s[1..]);
    }
  }

  /** A ZWNJ inserted into plain text disappears from the skeleton. */
  lemma InsertedJoinerVanishes(a: string, b: string)
    requires forall m :: 0 <= m < |a| ==> !IsSpace(a[m]) && a[m] != ZWNJ
    requires forall m :: 0 <= m < |b| ==> !IsSpace(b[m]) && b[m] != ZWNJ
    ensures Skeleton(a + [ZWNJ] + b) == a + b
  {
    var e: string := [];
    assert Skeleton([ZWNJ]) == e;
    SkeletonAppend(a, [ZWNJ]);
    SkeletonOfPlain(a);
    assert Skeleton(a + [ZWNJ]) == a + e == a;
    SkeletonAppend(a + [ZWNJ], b);
    SkeletonOfPlain(b);
  }

  lemma {:induction false} SkeletonOfSpaces(w: string)
    requires forall m :: 0 <= m < |w| ==> IsSpace(w[m])
    ensures Skeleton(w) == []
    decreases |w|
  {
    if |w| > 0 {
      SkeletonOfSpaces(w[1..]);
    }
  }

  /** Replacing the run of whitespace `s[j..k]` inside `s[i..e]` by one ZWNJ
      deletes nothing but whitespace and inserts nothing but ZWNJ. */
  lemma JoinKeepsSkeleton(s: string, i: nat, j: nat, k: nat, e: nat)
    requires i <= j <= k <= e <= |s|
    requires forall m :: j <= m < k ==> IsSpace(s[m])
    ensures Skeleton(s[i..j] + [ZWNJ] + s[k..e]) == Skeleton(s[i..e])
  {
    assert s[i..e] == s[i..j] + s[j..k] + s[k..e];
    SpacesToJoiner(s[i..j], s[j..k], s[k..e]);
  }

  /** The length of the prefix "می" or "نمی" found at `i`, or 0 when neither is. */
  function PrefixLength(s: string, i: nat): (n: nat)
    ensures n == 0 || i + n <= |s|
    ensures n == 2 <==> OccursAt(s, i, Mi)
    ensures n == 3 ==> OccursAt(s, i, Nami)
    ensures n == 0 <==> !OccursAt(s, i, Mi) && !OccursAt(s, i, Nami)
    ensures n == 0 || n == 2 || n == 3
  {
    if OccursAt(s, i, Mi) then 2 else if OccursAt(s, i, Nami) then 3 else 0
  }

  /** Where the stem of a prefix-rule match at `i` starts: right after the
      prefix, and past the run of whitespace that follows it when `gap`. */
  function StemStart(s: string, i: nat, gap: bool): (k: nat)
    requires i <= |s|
    ensures i + PrefixLength(s, i) <= k <= |s|
    ensures !gap ==> k == i + PrefixLength(s, i)
    ensures forall m :: i + PrefixLength(s, i) <= m < k ==> IsSpace(s[m])
  {
    var j := i + PrefixLength(s, i);
    if gap then SpaceRunEnd(s, j) else j
  }

  /** A match of the prefix rule at `i`: `\b`, then "می" or "نمی", then a run of
      whitespace (non-empty when `gap`, empty otherwise), then the first stem
      that fits; the whitespace run becomes a ZWNJ. */
  function PrefixMatch(s: string, i: nat, gap: bool): (r: Option<Match>)
    requires i <= |s|
    ensures r.Some? <==>
              IsBoundary(s, i) && PrefixLength(s, i) > 0
              && (gap ==> StemStart(s, i, gap) > i + PrefixLength(s, i))
              && StemIndex(VerbStems, s, StemStart(s, i, gap), 0).Some?
    ensures r.Some? ==>
              var stem := VerbStems[StemIndex(VerbStems, s, StemStart(s, i, gap), 0).value];
              r.value.end == StemStart(s, i, gap) + |stem|
              && r.value.replacement == s[i..i + PrefixLength(s, i)] + [ZWNJ] + stem
    ensures r.Some? ==> i < r.value.end <= |s|
    ensures r.Some? ==> IsBoundary(s, i) && (OccursAt(s, i, Mi) || OccursAt(s, i, Nami))
    ensures r.Some? ==> Skeleton(r.value.replacement) == Skeleton(s[i..r.value.end])
  {
    var n := PrefixLength(s, i);
    if !IsBoundary(s, i) || n == 0 then None
    else
      var j := i + n;
      var k := StemStart(s, i, gap);
      if gap && k == j then None
      else
        match StemIndex(VerbStems, s, k, 0)
        case None => None
        case Some(m) =>
          var e := k + |VerbStems[m]|;
          JoinKeepsSkeleton(s, i, j, k, e);
          assert s[k..e] == VerbStems[m];
          Some(Match(e, s[i..j] + [ZWNJ] + s[k..e]))
  }

  /** A match of `str.replace(target, substitute)` at `i` (the table has no
      empty target). */
  function ReplaceMatch(s: string, i: nat, target: string, substitute: string): (r: Option<Match>)
    requires i <= |s|
    ensures r.Some? <==> |target| > 0 && OccursAt(s, i, target)
    ensures r.Some? ==> r.value == Match(i + |target|, substitute)
  {
    if |target| > 0 && OccursAt(s, i, target) then Some(Match(i + |target|, substitute)) else None
  }

  /** A match of the suffix rule at `i`: one non-whitespace character, a
      non-empty run of whitespace, the suffix, then `\b`; the whitespace run
      becomes a ZWNJ. */
  function SuffixMatch(s: string, i: nat, suffix: string): (r: Option<Match>)
    requires i <= |s|
    ensures r.Some? <==>
              i < |s| && !IsSpace(s[i]) && SpaceRunEnd(s, i + 1) > i + 1
              && OccursAt(s, SpaceRunEnd(s, i + 1), suffix)
              && IsBoundary(s, SpaceRunEnd(s, i + 1) + |suffix|)
    ensures r.Some? ==> i < r.value.end <= |s|
    ensures r.Some? ==>
              r.value == Match(SpaceRunEnd(s, i + 1) + |suffix|, [s[i]] + [ZWNJ] + suffix)
    ensures r.Some? ==> !IsSpace(s[i]) && |suffix| <= r.value.end
                        && OccursAt(s, r.value.end - |suffix|, suffix)
    ensures r.Some? ==> IsBoundary(s, r.value.end)
    ensures r.Some? ==> Skeleton(r.value.replacement) == Skeleton(s[i..r.value.end])
  {
    if i == |s| || IsSpace(s[i]) then None
    else
      var k := SpaceRunEnd(s, i + 1);
      if k == i + 1 || !OccursAt(s, k, suffix) || !IsBoundary(s, k + |suffix|) then None
      else
        var m := Match(k + |suffix|, [s[i]] + [ZWNJ] + suffix);
        SuffixJoinKeepsSkeleton(s, i, k, suffix);
        assert Skeleton(m.replacement) == Skeleton(s[i..m.end]);
        Some(m)
  }

  /** The suffix rule's rewrite of `s[i..k + |suffix|]` keeps its skeleton. */
  lemma SuffixJoinKeepsSkeleton(s: string, i: nat, k: nat, suffix: string)
    requires i < k && OccursAt(s, k, suffix)
    requires forall m :: i + 1 <= m < k ==> IsSpace(s[m])
    ensures Skeleton([s[i]] + [ZWNJ] + suffix) == Skeleton(s[i..k + |suffix|])
  {
    SuffixSlices(s, i, k, suffix);
    SpacesToJoiner([s[i]], s[i + 1..k], suffix);
  }

  lemma SuffixSlices(s: string, i: nat, k: nat, suffix: string)
    requires i < k && OccursAt(s, k, suffix)
    ensures s[i..k + |suffix|] == [s[i]] + s[i + 1..k] + suffix
  {
  }

  /** Replacing whitespace between two pieces by one ZWNJ keeps the skeleton. */
  lemma SpacesToJoiner(a: string, w: string, b: string)
    requires forall m :: 0 <= m < |w| ==> IsSpace(w[m])
    ensures Skeleton(a + [ZWNJ] + b) == Skeleton(a + w + b)
  {
    SkeletonAppend(a + [ZWNJ], b);
    SkeletonAppend(a, [ZWNJ]);
    SkeletonAppend(a + w, b);
    SkeletonAppend(a, w);
    SkeletonOfSpaces(w);
    var none: string := [];
    assert Skeleton([ZWNJ]) == none;
    assert Skeleton(a + [ZWNJ]) == Skeleton(a) + none == Skeleton(a + w);
  }

  /** Text without whitespace and without ZWNJ. */
  predicate IsPlain(t: string)
  {
    forall m :: 0 <= m < |t| ==> !IsSpace(t[m]) && t[m] != ZWNJ
  }

  /** A literal rewrite of the table joins two plain, not both empty, pieces. */
  predicate WellFormed(rule: Rule)
  {
    rule.InsertJoiner? ==> |rule.before + rule.after| > 0 && IsPlain(rule.before) && IsPlain(rule.after)
  }

  /** The match of `rule` that starts at `i`, if any. */
  function MatchAt(rule: Rule, s: string, i: nat): (r: Option<Match>)
    requires i <= |s|
    ensures r.Some? ==> i < r.value.end <= |s|
    ensures r.Some? && WellFormed(rule) ==>
              Skeleton(r.value.replacement) == Skeleton(s[i..r.value.end])
  {
    match rule
    case JoinPrefix(gap) => PrefixMatch(s, i, gap)
    case InsertJoiner(before, after) =>
      var r := ReplaceMatch(s, i, before + after, before + [ZWNJ] + after);
      if r.Some? && WellFormed(rule) then
        assert s[i..r.value.end] == before + after;
        InsertedJoinerVanishes(before, after);
        SkeletonOfPlain(before + after);
        r
      else r
    case JoinSuffix(suffix) => SuffixMatch(s, i, suffix)
  }

  /** `re.sub` / `str.replace` with one rule over `s[i..]`: scan left to right,
      replace each match, resume right after it. Matches look at the original
      text, so `\b` sees the characters a previous replacement consumed. */
  function Apply(rule: Rule, s: string, i: nat): (r: string)
    requires i <= |s|
    ensures WellFormed(rule) ==> Skeleton(r) == Skeleton(s[i..])
    decreases |s| - i
  {
    if i == |s| then []
    else
      match MatchAt(rule, s, i)
      case Some(m) =>
        var rest := Apply(rule, s, m.end);
        if WellFormed(rule) then
          SkeletonSplit(s, i, m.end, m.replacement, rest);
          m.replacement + rest
        else m.replacement + rest
      case None =>
        var rest := Apply(rule, s, i + 1);
        if WellFormed(rule) then
          assert s[i..i + 1] == [s[i]];
          SkeletonSplit(s, i, i + 1, [s[i]], rest);
          [s[i]] + rest
        else [s[i]] + rest
  }

  /** The rules `Rules[n..]` in order, each over the output of the previous
      one; together they delete only whitespace and insert only ZWNJ. */
  function ApplyFrom(n: nat, s: string): (r: string)
    requires n <= |Rules|
    ensures Skeleton(r) == Skeleton(s)
    decreases |Rules| - n
  {
    if n == |Rules| then s
    else
      RulesWellFormed();
      assert s[0..] == s;
      ApplyFrom(n + 1, Apply(Rules[n], s, 0))
  }

  /** Skeletons compose along a split of `s[i..]` at `e`. */
  lemma SkeletonSplit(s: string, i: nat, e: nat, x: string, y: string)
    requires i <= e <= |s|
    requires Skeleton(x) == Skeleton(s[i..e]) && Skeleton(y) == Skeleton(s[e..])
    ensures Skeleton(x + y) == Skeleton(s[i..])
  {
    SkeletonAppend(x, y);
    assert s[i..] == s[i..e] + s[e..];
    SkeletonAppend(s[i..e], s[e..]);
  }

  lemma RulesWellFormed()
    ensures forall n :: 0 <= n < |Rules| ==> WellFormed(Rules[n])
  {
  }

  /** `correct_common_spacing_errors`: empty text gives empty text, and the
      only edits are deleting whitespace and inserting ZWNJ, so removing all
      whitespace and ZWNJ from the input and from the output gives the same
      string. */
  function CorrectSpacing(s: string): (r: string)
    ensures s == [] ==> r == []
    ensures Skeleton(r) == Skeleton(s)
  {
    if s == [] then [] else ApplyFrom(0, s)
  }

  /** A position without a match is copied. */
  lemma ApplyCopiesOne(rule: Rule, s: string, i: nat)
    requires i < |s| && MatchAt(rule, s, i).None?
    ensures Apply(rule, s, i) == [s[i]] + Apply(rule, s, i + 1)
  {
  }

  /** A match is replaced, and the scan resumes right after it. */
  lemma ApplyReplacesOne(rule: Rule, s: string, i: nat, m: Match)
    requires i < |s| && MatchAt(rule, s, i) == Some(m)
    ensures Apply(rule, s, i) == m.replacement + Apply(rule, s, m.end)
  {
  }

  /** No match of `rule` starts in `s[i..j]`. */
  predicate Unmatched(rule: Rule, s: string, i: nat, j: nat)
    requires i <= j <= |s|
  {
    forall k :: i <= k < j ==> MatchAt(rule, s, k).None?
  }

  /** A stretch without matches is copied as it is. */
  lemma {:induction false} ApplyCopiesUntil(rule: Rule, s: string, i: nat, j: nat)
    requires i <= j <= |s|
    requires Unmatched(rule, s, i, j)
    ensures Apply(rule, s, i) == s[i..j] + Apply(rule, s, j)
    decreases j - i
  {
    if i < j {
      assert Unmatched(rule, s, i + 1, j);
      ApplyCopiesUntil(rule, s, i + 1, j);
      ApplyCopiesStep(rule, s, i, j, Apply(rule, s, j));
    } else {
      assert s[i..j] == [];
    }
  }

  /** One more copied position in front of a copied stretch. */
  lemma ApplyCopiesStep(rule: Rule, s: string, i: nat, j: nat, rest: string)
    requires i < j <= |s| && MatchAt(rule, s, i).None?
    requires Apply(rule, s, i + 1) == s[i + 1..j] + rest
    ensures Apply(rule, s, i) == s[i..j] + rest
  {
    ApplyCopiesOne(rule, s, i);
    SliceCons(s, i, j, rest);
  }

  lemma SliceCons<T>(s: seq<T>, i: nat, j: nat, tail: seq<T>)
    requires i < j <= |s|
    ensures [s[i]] + (s[i + 1..j] + tail) == s[i..j] + tail
  {
    assert s[i..j] == [s[i]] + s[i + 1..j];
  }

  /** A scan that finds no match copies the text. */
  lemma ApplyWithoutMatch(rule: Rule, s: string, i: nat)
    requires i <= |s|
    requires forall k :: i <= k < |s| ==> MatchAt(rule, s, k).None?
    ensures Apply(rule, s, i) == s[i..]
  {
    ApplyCopiesUntil(rule, s, i, |s|);
  }

  predicate IsAscii(s: string)
  {
    forall j :: 0 <= j < |s| ==> s[j] < '\U{0080}'
  }

  lemma OccursHead(s: string, k: nat, t: string)
    ensures OccursAt(s, k, t) && |t| > 0 ==> s[k] == t[0]
  {
    if OccursAt(s, k, t) && |t| > 0 {
      assert s[k..k + |t|][0] == s[k];
    }
  }

  /** Every match of every rule of the table starts with, or ends in, a
      character of the Arabic block, so ASCII text offers none. */
  lemma AsciiHasNoMatch(n: nat, s: string, k: nat)
    requires n < |Rules| && IsAscii(s) && k <= |s|
    ensures MatchAt(Rules[n], s, k).None?
  {
    var rule := Rules[n];
    OccursHead(s, k, Mi);
    OccursHead(s, k, Nami);
    if rule.InsertJoiner? {
      OccursHead(s, k, rule.before + rule.after);
      assert (rule.before + rule.after)[0] >= '\U{0080}';
    }
    if rule.JoinSuffix? {
      forall k' | 0 <= k' <= |s|
        ensures !OccursAt(s, k', rule.suffix)
      {
        OccursHead(s, k', rule.suffix);
      }
    }
  }

  lemma {:induction false} ApplyFromToAscii(from: nat, s: string)
    requires from <= |Rules| && IsAscii(s)
    ensures ApplyFrom(from, s) == s
    decreases |Rules| - from
  {
    if from < |Rules| {
      forall k | 0 <= k < |s|
        ensures MatchAt(Rules[from], s, k).None?
      {
        AsciiHasNoMatch(from, s, k);
      }
      ApplyWithoutMatch(Rules[from], s, 0);
      assert s[0..] == s;
      ApplyFromToAscii(from + 1, s);
    }
  }

  /** ASCII-only text is returned unchanged. */
  lemma CorrectSpacingKeepsAscii(s: string)
    requires IsAscii(s)
    ensures CorrectSpacing(s) == s
  {
    ApplyFromToAscii(0, s);
  }

  /** A rule none of whose matches can avoid the character `c`. */
  predicate Needs(rule: Rule, c: char)
  {
    match rule
    case JoinPrefix(_) => c in Mi && c in Nami
    case InsertJoiner(before, after) => c in before + after
    case JoinSuffix(suffix) => c in suffix
  }

  /** Every character of an occurrence of `t` is a character of `s`. */
  lemma OccurrenceChars(s: string, k: nat, t: string)
    ensures OccursAt(s, k, t) ==> forall c :: c in t ==> c in s
  {
    if OccursAt(s, k, t) {
      forall c | c in t
        ensures c in s
      {
        var m :| 0 <= m < |t| && t[m] == c;
        assert s[k..k + |t|][m] == s[k + m];
      }
    }
  }

  lemma AbsentCharBlocks(s: string, t: string, c: char)
    requires c in t && c !in s
    ensures forall k: nat :: !OccursAt(s, k, t)
  {
    forall k: nat
      ensures !OccursAt(s, k, t)
    {
      OccurrenceChars(s, k, t);
    }
  }

  /** A rule that needs a character the text lacks leaves the text alone. */
  lemma ApplyWithoutNeededChar(rule: Rule, s: string, c: char)
    requires Needs(rule, c) && c !in s
    ensures Apply(rule, s, 0) == s
  {
    match rule {
    case JoinPrefix(_) =>
      AbsentCharBlocks(s, Mi, c);
      AbsentCharBlocks(s, Nami, c);
    case InsertJoiner(before, after) =>
      AbsentCharBlocks(s, before + after, c);
    case JoinSuffix(suffix) =>
      AbsentCharBlocks(s, suffix, c);
    }
    ApplyWithoutMatch(rule, s, 0);
    assert s[0..] == s;
  }

  /** The seven passes written out one after another. */
  lemma CorrectSpacingPasses(s: string)
    requires s != []
    ensures CorrectSpacing(s) ==
      var s1 := Apply(Rules[0], s, 0);
      var s2 := Apply(Rules[1], s1, 0);
      var s3 := Apply(Rules[2], s2, 0);
      var s4 := Apply(Rules[3], s3, 0);
      var s5 := Apply(Rules[4], s4, 0);
      var s6 := Apply(Rules[5], s5, 0);
      Apply(Rules[6], s6, 0)
  {
    var s1 := Apply(Rules[0], s, 0);
    var s2 := Apply(Rules[1], s1, 0);
    var s3 := Apply(Rules[2], s2, 0);
    var s4 := Apply(Rules[3], s3, 0);
    var s5 := Apply(Rules[4], s4, 0);
    var s6 := Apply(Rules[5], s5, 0);
    var s7 := Apply(Rules[6], s6, 0);
    assert ApplyFrom(7, s7) == s7;
    assert ApplyFrom(6, s6) == ApplyFrom(7, s7);
    assert ApplyFrom(5, s5) == ApplyFrom(6, s6);
    assert ApplyFrom(4, s4) == ApplyFrom(5, s5);
    assert ApplyFrom(3, s3) == ApplyFrom(4, s4);
    assert ApplyFrom(2, s2) == ApplyFrom(3, s3);
    assert ApplyFrom(1, s1) == ApplyFrom(2, s2);
    assert ApplyFrom(0, s) == ApplyFrom(1, s1);
  }

  lemma SplitRejoins(s: string, n: nat)
    requires n <= |s|
    ensures s[..n] + s[n..] == s
  {
  }

  const Sample: string := "x ها ها"
  const Joined: string := "x\U{200C}ها ها"
  const JoinedTwice: string := "x\U{200C}ها\U{200C}ها"

  lemma FirstSuffixPass()
    ensures Apply(Rules[5], Sample, 0) == Joined
  {
    SampleHeadJoined();
    SampleTailCopied();
    SplitRejoins(Joined, 4);
  }

  /** "x ها" at the start of the sample is joined in one match. */
  lemma SampleHeadJoined()
    ensures Apply(Rules[5], Sample, 0) == Joined[..4] + Apply(Rules[5], Sample, 4)
  {
    var s := Sample;
    assert SpaceRunEnd(s, 2) == 2;
    assert SpaceRunEnd(s, 1) == 2;
    assert s[2..4] == "ها";
    assert IsBoundary(s, 4);
    assert Joined[..4] == "x" + [ZWNJ] + "ها";
    assert MatchAt(Rules[5], s, 0) == Some(Match(4, Joined[..4]));
    ApplyReplacesOne(Rules[5], s, 0, Match(4, Joined[..4]));
  }

  /** After the first match, the rest of the sample starts no match. */
  lemma SampleTailCopied()
    ensures Apply(Rules[5], Sample, 4) == Joined[4..]
  {
    var s := Sample;
    assert MatchAt(Rules[5], s, 4).None?;
    assert SpaceRunEnd(s, 6) == 6;
    assert MatchAt(Rules[5], s, 5).None?;
    assert SpaceRunEnd(s, 7) == 7;
    assert MatchAt(Rules[5], s, 6).None?;
    ApplyWithoutMatch(Rules[5], s, 4);
    assert s[4..] == Joined[4..];
  }

  lemma SecondSuffixPass()
    ensures Apply(Rules[5], Joined, 0) == JoinedTwice
  {
    JoinedHeadCopied();
    JoinedSuffixJoined();
    SplitRejoins(JoinedTwice, 3);
  }

  /** "x", the joiner and "ه" start no match of the "ها" pass. */
  lemma JoinedHeadCopied()
    ensures Apply(Rules[5], Joined, 0) == JoinedTwice[..3] + Apply(Rules[5], Joined, 3)
  {
    assert Joined[0..3] == JoinedTwice[..3];
    var s := Joined;
    assert SpaceRunEnd(s, 1) == 1;
    assert MatchAt(Rules[5], s, 0).None?;
    assert SpaceRunEnd(s, 2) == 2;
    assert MatchAt(Rules[5], s, 1).None?;
    assert SpaceRunEnd(s, 3) == 3;
    assert MatchAt(Rules[5], s, 2).None?;
    ApplyCopiesUntil(Rules[5], s, 0, 3);
  }

  /** The joined "ها" is itself the word before the second one. */
  lemma JoinedSuffixJoined()
    ensures Apply(Rules[5], Joined, 3) == JoinedTwice[3..]
  {
    assert JoinedTwice[3..] == "ا" + [ZWNJ] + "ها";
    var s := Joined;
    assert SpaceRunEnd(s, 5) == 5;
    assert SpaceRunEnd(s, 4) == 5;
    assert s[5..7] == "ها";
    assert IsBoundary(s, 7);
    assert MatchAt(Rules[5], s, 3) == Some(Match(7, "ا" + [ZWNJ] + "ها"));
    ApplyReplacesOne(Rules[5], s, 3, Match(7, "ا" + [ZWNJ] + "ها"));
  }

  /** Unlike what one might expect of a normalizer, the corrector is not
      idempotent: a token joined by the "ها" pass can itself be the character
      before the next separated "ها", which only a second run joins. */
  lemma CorrectSpacingNotIdempotent()
    ensures CorrectSpacing(Sample) == Joined
    ensures CorrectSpacing(CorrectSpacing(Sample)) == JoinedTwice != Joined
  {
    var y: char := '\U{06CC}';
    var n: char := '\U{0646}';
    assert y !in Sample && y !in Joined && n !in Sample && n !in Joined;
    assert Needs(Rules[0], y) && Needs(Rules[1], y) && Needs(Rules[2], y) && Needs(Rules[3], y);
    assert Needs(Rules[4], n) && Needs(Rules[6], y);
    assert y !in JoinedTwice;
    CorrectSpacingPasses(Sample);
    ApplyWithoutNeededChar(Rules[0], Sample, y);
    ApplyWithoutNeededChar(Rules[1], Sample, y);
    ApplyWithoutNeededChar(Rules[2], Sample, y);
    ApplyWithoutNeededChar(Rules[3], Sample, y);
    ApplyWithoutNeededChar(Rules[4], Sample, n);
    FirstSuffixPass();
    ApplyWithoutNeededChar(Rules[6], Joined, y);
    CorrectSpacingPasses(Joined);
    ApplyWithoutNeededChar(Rules[0], Joined, y);
    ApplyWithoutNeededChar(Rules[1], Joined, y);
    ApplyWithoutNeededChar(Rules[2], Joined, y);
    ApplyWithoutNeededChar(Rules[3], Joined, y);
    ApplyWithoutNeededChar(Rules[4], Joined, n);
    SecondSuffixPass();
    ApplyWithoutNeededChar(Rules[6], JoinedTwice, y);
    assert JoinedTwice[4] != Joined[4];
  }

  const Books: string := "کتاب ها"
  const BooksJoined: string := "کتاب\U{200C}ها"

  lemma BooksSuffixPass()
    ensures Apply(Rules[5], Books, 0) == BooksJoined
  {
    BooksStemCopied();
    BooksSuffixJoined();
    SplitRejoins(BooksJoined, 3);
  }

  /** The first three letters of "کتاب" start no match of the "ها" pass. */
  lemma BooksStemCopied()
    ensures Apply(Rules[5], Books, 0) == BooksJoined[..3] + Apply(Rules[5], Books, 3)
  {
    assert Books[0..3] == BooksJoined[..3];
    var s := Books;
    assert SpaceRunEnd(s, 1) == 1 && SpaceRunEnd(s, 2) == 2 && SpaceRunEnd(s, 3) == 3;
    assert MatchAt(Rules[5], s, 0).None? && MatchAt(Rules[5], s, 1).None?;
    assert MatchAt(Rules[5], s, 2).None?;
    ApplyCopiesUntil(Rules[5], s, 0, 3);
  }

  /** From the last letter of "کتاب" the "ها" pass joins the suffix. */
  lemma BooksSuffixJoined()
    ensures Apply(Rules[5], Books, 3) == BooksJoined[3..]
  {
    assert BooksJoined[3..] == "ب" + [ZWNJ] + "ها";
    var s := Books;
    assert SpaceRunEnd(s, 5) == 5;
    assert SpaceRunEnd(s, 4) == 5;
    assert s[5..7] == "ها";
    assert IsBoundary(s, 7);
    assert MatchAt(Rules[5], s, 3) == Some(Match(7, "ب" + [ZWNJ] + "ها"));
    ApplyReplacesOne(Rules[5], s, 3, Match(7, "ب" + [ZWNJ] + "ها"));
  }

  /** "کتاب ها" (books, written with a space) becomes "کتاب‌ها". */
  lemma SuffixJoinExample()
    ensures CorrectSpacing(Books) == BooksJoined
  {
    var y: char := '\U{06CC}';
    var n: char := '\U{0646}';
    assert y !in Books && n !in Books && y !in BooksJoined;
    assert Needs(Rules[0], y) && Needs(Rules[1], y) && Needs(Rules[2], y) && Needs(Rules[3], y);
    assert Needs(Rules[4], n) && Needs(Rules[6], y);
    CorrectSpacingPasses(Books);
    ApplyWithoutNeededChar(Rules[0], Books, y);
    ApplyWithoutNeededChar(Rules[1], Books, y);
    ApplyWithoutNeededChar(Rules[2], Books, y);
    ApplyWithoutNeededChar(Rules[3], Books, y);
    ApplyWithoutNeededChar(Rules[4], Books, n);
    BooksSuffixPass();
    ApplyWithoutNeededChar(Rules[6], BooksJoined, y);
  }

  /** Every stem begins with a word character. */
  lemma StemsStartWithWordChar(n: nat)
    requires n < |VerbStems|
    ensures |VerbStems[n]| > 0 && IsWordChar(VerbStems[n][0])
  {
    StemEntry(n);
    var r := n / 6;
    assert |Roots[r]| > 0 && IsWordChar(Roots[r][0]);
    assert VerbStems[n][0] == Roots[r][0];
  }

  /** No stem fits where there is no word character. */
  lemma StemNeedsWordChar(s: string, k: nat)
    requires !WordAt(s, k)
    ensures StemIndex(VerbStems, s, k, 0).None?
  {
    forall m | 0 <= m < |VerbStems|
      ensures !StemFits(s, k, VerbStems[m])
    {
      StemsStartWithWordChar(m);
      OccursHead(s, k, VerbStems[m]);
    }
  }

  /** Applying the rules from `n` on is the pass `n` followed by the rest. */
  lemma ApplyFromStep(n: nat, s: string)
    requires n < |Rules|
    ensures ApplyFrom(n, s) == ApplyFrom(n + 1, Apply(Rules[n], s, 0))
  {
  }

  const Go: string := "می روم"
  const GoClosed: string := "میروم"
  const GoJoined: string := "می\U{200C}روم"

  /** The table has the source's 126 stems; the first is "روم". */
  lemma FirstStem()
    ensures |VerbStems| == 126
    ensures VerbStems[0] == "روم"
  {
  }

  /** "شود", the stem the "میشود" rewrite also spells out, is stem 13. */
  lemma BecomeStem()
    ensures VerbStems[13] == "شود"
  {
  }

  /** "می روم" ("I go", with a space): the first prefix pass joins it. */
  lemma GapPrefixPass()
    ensures Apply(Rules[0], Go, 0) == GoJoined
  {
    var s := Go;
    FirstStem();
    assert s[3..6] == VerbStems[0];
    assert StemIndex(VerbStems, s, 3, 0) == Some(0);
    assert SpaceRunEnd(s, 3) == 3;
    assert StemStart(s, 0, true) == 3;
    assert GoJoined == s[0..2] + [ZWNJ] + VerbStems[0];
    ApplyReplacesOne(Rules[0], s, 0, Match(6, GoJoined));
  }

  /** "میروم" (no separator): the second prefix pass joins it. */
  lemma ClosedPrefixPass()
    ensures Apply(Rules[1], GoClosed, 0) == GoJoined
  {
    var s := GoClosed;
    FirstStem();
    assert s[2..5] == VerbStems[0];
    assert StemIndex(VerbStems, s, 2, 0) == Some(0);
    assert GoJoined == s[0..2] + [ZWNJ] + VerbStems[0];
    ApplyReplacesOne(Rules[1], s, 0, Match(5, GoJoined));
  }

  /** The first prefix pass wants whitespace after the prefix, so it leaves
      "میروم" alone. */
  lemma ClosedSkipsGapPass()
    ensures Apply(Rules[0], GoClosed, 0) == GoClosed
  {
    var s := GoClosed;
    assert SpaceRunEnd(s, 2) == 2;
    forall k | 0 <= k < |s|
      ensures MatchAt(Rules[0], s, k).None?
    {
      if k > 0 {
        assert PrefixLength(s, k) == 0 || !IsBoundary(s, k);
      }
    }
    ApplyWithoutMatch(Rules[0], s, 0);
  }

  /** Neither prefix starts at `k` when `s[k]` is not the first letter of
      one, or when only one character is left. */
  lemma NoPrefixAt(s: string, k: nat)
    requires k < |s| && (k + 1 == |s| || s[k] != Mi[0]) && s[k] != Nami[0]
    ensures PrefixLength(s, k) == 0
  {
    OccursHead(s, k, Mi);
    OccursHead(s, k, Nami);
  }

  /** Once joined, the verb offers no match to the second prefix pass: the
      ZWNJ after the prefix is not a stem's first letter. */
  lemma JoinedSkipsClosedPass()
    ensures Apply(Rules[1], GoJoined, 0) == GoJoined
  {
    var s := GoJoined;
    assert StemStart(s, 0, false) == 2;
    StemNeedsWordChar(s, 2);
    assert MatchAt(Rules[1], s, 0).None?;
    assert !IsBoundary(s, 1);
    assert MatchAt(Rules[1], s, 1).None?;
    NoPrefixAt(s, 2);
    NoPrefixAt(s, 3);
    NoPrefixAt(s, 4);
    NoPrefixAt(s, 5);
    ApplyWithoutMatch(Rules[1], s, 0);
  }

  /** The joined verb passes through the five rules after the prefix passes. */
  lemma JoinedVerbSettled()
    ensures ApplyFrom(2, GoJoined) == GoJoined
  {
    var a: char := '\U{0627}';
    var h: char := '\U{0647}';
    var sh: char := '\U{0634}';
    assert a !in GoJoined && h !in GoJoined && sh !in GoJoined;
    assert Needs(Rules[2], a) && Needs(Rules[3], sh) && Needs(Rules[4], h);
    assert Needs(Rules[5], h) && Needs(Rules[6], a);
    ApplyWithoutNeededChar(Rules[2], GoJoined, a);
    ApplyWithoutNeededChar(Rules[3], GoJoined, sh);
    ApplyWithoutNeededChar(Rules[4], GoJoined, h);
    ApplyWithoutNeededChar(Rules[5], GoJoined, h);
    ApplyWithoutNeededChar(Rules[6], GoJoined, a);
    ApplyFromStep(2, GoJoined);
    ApplyFromStep(3, GoJoined);
    ApplyFromStep(4, GoJoined);
    ApplyFromStep(5, GoJoined);
    ApplyFromStep(6, GoJoined);
  }

  /** "می روم" becomes "می‌روم". */
  lemma GapPrefixExample()
    ensures CorrectSpacing(Go) == GoJoined
  {
    GapPrefixPass();
    JoinedSkipsClosedPass();
    JoinedVerbSettled();
    ApplyFromStep(0, Go);
    ApplyFromStep(1, GoJoined);
  }

  /** "میروم" becomes "می‌روم". */
  lemma ClosedPrefixExample()
    ensures CorrectSpacing(GoClosed) == GoJoined
  {
    ClosedSkipsGapPass();
    ClosedPrefixPass();
    JoinedVerbSettled();
    ApplyFromStep(0, GoClosed);
    ApplyFromStep(1, GoClosed);
  }

  const Becomes: string := "میشود"
  const BecomesJoined: string := "می\U{200C}شود"

  /** The literal rewrite of "میشود" inserts the joiner after "می". */
  lemma LiteralRewritePass()
    ensures Apply(Rules[3], Becomes, 0) == BecomesJoined
  {
    assert BecomesJoined == "می" + [ZWNJ] + "شود";
    assert MatchAt(Rules[3], Becomes, 0) == Some(Match(5, BecomesJoined));
    ApplyReplacesOne(Rules[3], Becomes, 0, Match(5, BecomesJoined));
  }

  /** A suffix pass needs whitespace, so text without any is left alone. */
  lemma ApplySuffixWithoutSpace(suffix: string, s: string)
    requires forall m :: 0 <= m < |s| ==> !IsSpace(s[m])
    ensures Apply(JoinSuffix(suffix), s, 0) == s
  {
    forall k | 0 <= k < |s|
      ensures MatchAt(JoinSuffix(suffix), s, k).None?
    {
      NoSuffixWithoutSpace(s, k, suffix);
    }
    ApplyWithoutMatch(JoinSuffix(suffix), s, 0);
  }

  lemma NoSuffixWithoutSpace(s: string, k: nat, suffix: string)
    requires k < |s| && (k + 1 == |s| || !IsSpace(s[k + 1]))
    ensures SuffixMatch(s, k, suffix).None?
  {
    assert SpaceRunEnd(s, k + 1) == k + 1;
  }

  const Those: string := "آنها"
  const ThoseJoined: string := "آن\U{200C}ها"

  /** The literal rewrite of "آنها" inserts the joiner after "آن". */
  lemma ThosePass()
    ensures Apply(Rules[4], Those, 0) == ThoseJoined
  {
    assert ThoseJoined == "آن" + [ZWNJ] + "ها";
    assert MatchAt(Rules[4], Those, 0) == Some(Match(4, ThoseJoined));
    ApplyReplacesOne(Rules[4], Those, 0, Match(4, ThoseJoined));
  }

  /** "آنها" has no "ی", which each of the first four rules needs. */
  lemma ThoseReachesFourthPass()
    ensures ApplyFrom(0, Those) == ApplyFrom(4, Those)
  {
    var y: char := '\U{06CC}';
    assert y !in Those;
    assert Needs(Rules[0], y) && Needs(Rules[1], y) && Needs(Rules[2], y) && Needs(Rules[3], y);
    ApplyWithoutNeededChar(Rules[0], Those, y);
    ApplyWithoutNeededChar(Rules[1], Those, y);
    ApplyWithoutNeededChar(Rules[2], Those, y);
    ApplyWithoutNeededChar(Rules[3], Those, y);
    ApplyFromStep(0, Those);
    ApplyFromStep(1, Those);
    ApplyFromStep(2, Those);
    ApplyFromStep(3, Those);
  }

  /** The joined word has no whitespace for the two suffix passes. */
  lemma ThoseJoinedSettled()
    ensures ApplyFrom(5, ThoseJoined) == ThoseJoined
  {
    var t := ThoseJoined;
    assert forall m :: 0 <= m < |t| ==> !IsSpace(t[m]);
    ApplySuffixWithoutSpace(Rules[5].suffix, t);
    ApplySuffixWithoutSpace(Rules[6].suffix, t);
    ApplyFromStep(5, t);
    ApplyFromStep(6, t);
  }

  /** "آنها" ("they") becomes "آن‌ها" through its literal rewrite. */
  lemma LiteralRewriteExample()
    ensures CorrectSpacing(Those) == ThoseJoined
  {
    ThoseReachesFourthPass();
    ThosePass();
    ThoseJoinedSettled();
    ApplyFromStep(4, Those);
  }
}

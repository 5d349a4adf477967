/** The digit normalizer `to_english_digits` and the integer conversion the
    extractor applies to its output (`int(...)`), plus the decimal rendering
    `str(n)` of an integer that `to_english_digits` falls back to. */
module Digits {
  import opened Json
  import opened Strings

  predicate IsAsciiDigit(c: char)        { '0' <= c <= '9' }
  predicate IsPersianDigit(c: char)      { '\U{06F0}' <= c <= '\U{06F9}' }
  predicate IsArabicIndicDigit(c: char)  { '\U{0660}' <= c <= '\U{0669}' }

  /** The numeric value of a digit glyph of any of the three scripts. */
  function DigitValue(c: char): (d: nat)
    requires IsAsciiDigit(c) || IsPersianDigit(c) || IsArabicIndicDigit(c)
    ensures d < 10
  {
    if IsAsciiDigit(c) then c as int - '0' as int
    else if IsPersianDigit(c) then c as int - 0x06F0
    else c as int - 0x0660
  }

  /** The ASCII digit with value `d`. */
  function AsciiDigit(d: nat): (c: char)
    requires d < 10
    ensures IsAsciiDigit(c) && DigitValue(c) == d
  {
    ('0' as int + d) as char
  }

  /** One character through both translation tables (Persian, then Arabic-Indic). */
  function TranslateDigit(c: char): (r: char)
    ensures IsPersianDigit(c) || IsArabicIndicDigit(c) ==>
              IsAsciiDigit(r) && DigitValue(r) == DigitValue(c)
    ensures !IsPersianDigit(c) && !IsArabicIndicDigit(c) ==> r == c
    ensures !IsPersianDigit(r) && !IsArabicIndicDigit(r)
  {
    if IsPersianDigit(c) || IsArabicIndicDigit(c) then AsciiDigit(DigitValue(c)) else c
  }

  /** `to_english_digits` on a string: each Persian or Arabic-Indic digit becomes
      the ASCII digit of the same value, every other character is kept, and no
      Persian or Arabic-Indic digit survives. */
  function ToEnglishDigits(s: string): (r: string)
    ensures |r| == |s|
    ensures forall j :: 0 <= j < |s| ==> r[j] == TranslateDigit(s[j])
    ensures forall j :: 0 <= j < |r| ==> !IsPersianDigit(r[j]) && !IsArabicIndicDigit(r[j])
  {
    seq(|s|, j requires 0 <= j < |s| => TranslateDigit(s[j]))
  }

  /** Normalizing twice is normalizing once. */
  lemma ToEnglishDigitsIdempotent(s: string)
    ensures ToEnglishDigits(ToEnglishDigits(s)) == ToEnglishDigits(s)
  {
  }

  /** Text without Persian or Arabic-Indic digits is returned unchanged. */
  lemma ToEnglishDigitsKeepsOtherText(s: string)
    requires forall j :: 0 <= j < |s| ==> !IsPersianDigit(s[j]) && !IsArabicIndicDigit(s[j])
    ensures ToEnglishDigits(s) == s
  {
  }

  /** The examples "۱۲۳" and "١٢٣" both normalize to "123"; ASCII digits pass through. */
  lemma ToEnglishDigitsExamples()
    ensures ToEnglishDigits("۱۲۳") == "123"
    ensures ToEnglishDigits("١٢٣") == "123"
    ensures ToEnglishDigits("123") == "123"
  {
    assert ToEnglishDigits("۱۲۳") == [TranslateDigit('۱'), TranslateDigit('۲'), TranslateDigit('۳')];
    assert ToEnglishDigits("١٢٣") == [TranslateDigit('١'), TranslateDigit('٢'), TranslateDigit('٣')];
  }

  /** A non-empty run of ASCII digits: what `str.isdigit` and `int()` accept here. */
  predicate IsDigitString(s: string)
  {
    |s| > 0 && forall j :: 0 <= j < |s| ==> IsAsciiDigit(s[j])
  }

  /** The value of a string of ASCII digits read in base ten. */
  function DecimalValue(s: string): nat
    requires forall j :: 0 <= j < |s| ==> IsAsciiDigit(s[j])
  {
    if |s| == 0 then 0 else 10 * DecimalValue(s[..|s| - 1]) + DigitValue(s[|s| - 1])
  }

  /** The most digits `int()` reads and `str()` writes before raising
      `ValueError` (`sys.get_int_max_str_digits()` by default). */
  const MaxStrDigits: nat := 4300

  /** `int(s)` for a string that `str.isdigit` accepts: its value when it has
      at most `MaxStrDigits` digits (leading zeros count), `None` where
      Python raises `ValueError`. */
  function ParseDecimal(s: string): (r: Option<nat>)
    ensures r.Some? <==> IsDigitString(s) && |s| <= MaxStrDigits
  {
    if IsDigitString(s) && |s| <= MaxStrDigits then Some(DecimalValue(s)) else None
  }

  /** `str(n)` for a natural number: its shortest decimal rendering. */
  function ShowNat(n: nat): (s: string)
    ensures IsDigitString(s)
    ensures |s| == 1 || s[0] != '0'
    decreases n
  {
    if n < 10 then [AsciiDigit(n)] else ShowNat(n / 10) + [AsciiDigit(n % 10)]
  }

  /** `str(n)` for any integer. */
  function ShowInt(n: int): (s: string)
    ensures n >= 0 <==> IsDigitString(s)
  {
    if n >= 0 then ShowNat(n)
    else
      var s := "-" + ShowNat(-n);
      assert !IsAsciiDigit(s[0]);
      s
  }

  /** Reading back the rendering of a number gives the number: `int(str(n)) == n`. */
  lemma {:induction false} ParseShowNat(n: nat)
    requires |ShowNat(n)| <= MaxStrDigits
    ensures ParseDecimal(ShowNat(n)) == Some(n)
    decreases n
  {
    var s := ShowNat(n);
    if n >= 10 {
      assert s[..|s| - 1] == ShowNat(n / 10);
      ParseShowNat(n / 10);
      assert DecimalValue(s) == 10 * (n / 10) + n % 10;
    } else {
      assert s[..0] == [];
      assert DecimalValue(s) == n;
    }
  }

  /** A leading zero does not change the value read. */
  lemma {:induction false} LeadingZeroValue(s: string)
    requires IsDigitString(s) && |s| < MaxStrDigits
    ensures ParseDecimal("0" + s) == ParseDecimal(s)
    decreases |s|
  {
    if |s| > 1 {
      var t := s[..|s| - 1];
      LeadingZeroValue(t);
      assert ("0" + s)[..|"0" + s| - 1] == "0" + t;
    } else {
      assert ("0" + s)[..1] == "0";
      assert "0"[..0] == [];
      assert s[..0] == [];
      assert DecimalValue("0") == 0;
    }
  }

  /** `int(to_english_digits(s))` succeeds exactly when `s` is a non-empty string
      of digits of the three scripts, freely mixed. */
  lemma NormalizedDigitString(s: string)
    ensures IsDigitString(ToEnglishDigits(s)) <==>
              |s| > 0 && forall j :: 0 <= j < |s| ==>
                IsAsciiDigit(s[j]) || IsPersianDigit(s[j]) || IsArabicIndicDigit(s[j])
  {
    var r := ToEnglishDigits(s);
    if IsDigitString(r) {
      forall j | 0 <= j < |s|
        ensures IsAsciiDigit(s[j]) || IsPersianDigit(s[j]) || IsArabicIndicDigit(s[j])
      {
        assert IsAsciiDigit(r[j]);
      }
    }
  }

  /** What `int()` accepts once surrounding whitespace is gone: an optional
      sign followed by one to `MaxStrDigits` ASCII digits. */
  predicate IsNumeral(t: string)
  {
    if |t| > 0 && (t[0] == '+' || t[0] == '-') then
      IsDigitString(t[1..]) && |t| - 1 <= MaxStrDigits
    else
      IsDigitString(t) && |t| <= MaxStrDigits
  }

  /** `int(s)` on text: whitespace around the numeral is ignored, a leading
      `-` negates; `None` where Python raises `ValueError`. */
  function PyInt(s: string): (r: Option<int>)
    ensures r.Some? <==> IsNumeral(Strip(s))
    ensures r.Some? && Strip(s)[0] == '-' ==> r.value <= 0
    ensures r.Some? && Strip(s)[0] != '-' ==> r.value >= 0
    ensures IsDigitString(Strip(s)) ==> r == ParseDecimal(Strip(s))
    ensures r.Some? && (Strip(s)[0] == '+' || Strip(s)[0] == '-') ==>
              r.value == (if Strip(s)[0] == '-' then -1 else 1) * DecimalValue(Strip(s)[1..])
  {
    var t := Strip(s);
    if |t| > 0 && (t[0] == '+' || t[0] == '-') then
      match ParseDecimal(t[1..])
      case Some(n) => if t[0] == '-' then Some(-(n as int)) else Some(n)
      case None => None
    else
      match ParseDecimal(t)
      case Some(n) => Some(n)
      case None => None
  }

  /** `str(v)` where it matters: the text of a null, a boolean, an integer
      or a string. `None` stands for the text of a float, a list or an object,
      which always holds a character outside digits and whitespace ('.', 'e',
      "inf", "nan", a bracket or a brace) and so is never read as a number. */
  function ValueText(v: JValue): (r: Option<string>)
    ensures r.None? <==> v.JFloat? || v.JArr? || v.JObj?
    ensures v.JStr? ==> r == Some(v.s)
    ensures v.JInt? ==> r == Some(ShowInt(v.i))
    ensures v.JNull? ==> r == Some("None")
    ensures v.JBool? ==> r == Some(if v.b then "True" else "False")
  {
    match v
    case JNull => Some("None")
    case JBool(b) => Some(if b then "True" else "False")
    case JInt(i) => Some(ShowInt(i))
    case JStr(s) => Some(s)
    case JFloat => None
    case JArr(_) => None
    case JObj(_) => None
  }

  /** The rendering of an integer has no whitespace and no eastern digits. */
  lemma ShowIntIsPlain(n: int)
    ensures Strip(ShowInt(n)) == ShowInt(n)
    ensures ToEnglishDigits(ShowInt(n)) == ShowInt(n)
  {
    var s := ShowInt(n);
    var d := ShowNat(if n >= 0 then n else -n);
    assert forall j :: 0 <= j < |d| ==> IsAsciiDigit(d[j]);
    assert forall j :: 0 <= j < |s| ==> s[j] == '-' || IsAsciiDigit(s[j]) by {
      if n < 0 {
        assert s == "-" + d;
        forall j | 0 <= j < |s| ensures s[j] == '-' || IsAsciiDigit(s[j]) {
          if j > 0 { assert s[j] == d[j - 1]; }
        }
      }
    }
    StripUnchanged(s);
    ToEnglishDigitsKeepsOtherText(s);
  }

  /** `int(str(n)) == n` for every integer whose rendering `str()` allows. */
  lemma PyIntShowInt(n: int)
    requires |ShowNat(if n >= 0 then n else -n)| <= MaxStrDigits
    ensures PyInt(ShowInt(n)) == Some(n)
  {
    ShowIntIsPlain(n);
    var s := ShowInt(n);
    if n >= 0 {
      ParseShowNat(n);
    } else {
      ParseShowNat(-n);
      assert s[1..] == ShowNat(-n);
    }
  }

  /** A '+' sign is dropped: `int("+7") == 7`. */
  lemma PyIntPlusExample()
    ensures PyInt("+7") == Some(7)
  {
    var t := "+7";
    StripUnchanged(t);
    assert t[1..] == "7" && IsDigitString(t[1..]);
    assert DecimalValue(t[1..]) == 7;
  }

  /** A '-' sign negates, whatever the leading zeros: `int("-007") == -7`. */
  lemma PyIntMinusExample()
    ensures PyInt("-007") == Some(-7)
  {
    var t := "-007";
    StripUnchanged(t);
    var d := t[1..];
    assert d == "007" && IsDigitString(d);
    var z1, z2 := d[..1], d[..2];
    assert z2[..1] == z1 && z1[..0] == [];
    assert DecimalValue(z1) == 0;
    assert DecimalValue(z2) == 0;
    assert DecimalValue(d) == 7;
  }

  /** Whitespace around a numeral does not change what `int()` reads. */
  lemma PyIntIgnoresPadding(s: string, pre: string, post: string)
    requires forall j :: 0 <= j < |pre| ==> IsSpace(pre[j])
    requires forall j :: 0 <= j < |post| ==> IsSpace(post[j])
    requires s == [] || (!IsSpace(s[0]) && !IsSpace(s[|s| - 1]))
    ensures PyInt(pre + s + post) == PyInt(s)
  {
    StripPadded(pre, s, post);
    StripUnchanged(s);
    PyIntReadsStripped(pre + s + post, s);
  }

  /** `int()` sees only the stripped text. */
  lemma PyIntReadsStripped(a: string, b: string)
    requires Strip(a) == Strip(b)
    ensures PyInt(a) == PyInt(b)
  {
  }

  lemma SpaceTranslate(c: char)
    ensures IsSpace(TranslateDigit(c)) <==> IsSpace(c)
  {
  }

  lemma {:induction false} TrimStartTranslate(s: string)
    ensures TrimStart(ToEnglishDigits(s)) == ToEnglishDigits(TrimStart(s))
    decreases |s|
  {
    var t := ToEnglishDigits(s);
    if |s| > 0 {
      SpaceTranslate(s[0]);
      assert t[0] == TranslateDigit(s[0]);
      if IsSpace(s[0]) {
        assert t[1..] == ToEnglishDigits(s[1..]);
        TrimStartTranslate(s[1..]);
      }
    }
  }

  lemma {:induction false} TrimEndTranslate(s: string)
    ensures TrimEnd(ToEnglishDigits(s)) == ToEnglishDigits(TrimEnd(s))
    decreases |s|
  {
    var t := ToEnglishDigits(s);
    if |s| > 0 {
      SpaceTranslate(s[|s| - 1]);
      assert t[|s| - 1] == TranslateDigit(s[|s| - 1]);
      if IsSpace(s[|s| - 1]) {
        assert t[..|s| - 1] == ToEnglishDigits(s[..|s| - 1]);
        TrimEndTranslate(s[..|s| - 1]);
      }
    }
  }

  /** Digits are never whitespace, so translating them and stripping
      whitespace can be done in either order. */
  lemma StripTranslate(s: string)
    ensures Strip(ToEnglishDigits(s)) == ToEnglishDigits(Strip(s))
  {
    TrimStartTranslate(s);
    TrimEndTranslate(TrimStart(s));
  }

  /** Text whose translation holds no ASCII digit had no digit to translate. */
  lemma TranslateWithoutDigits(s: string)
    requires forall j :: 0 <= j < |s| ==> !IsAsciiDigit(ToEnglishDigits(s)[j])
    ensures ToEnglishDigits(s) == s
  {
    forall j | 0 <= j < |s|
      ensures !IsPersianDigit(s[j]) && !IsArabicIndicDigit(s[j])
    {
      assert ToEnglishDigits(s)[j] == TranslateDigit(s[j]);
    }
    ToEnglishDigitsKeepsOtherText(s);
  }
}

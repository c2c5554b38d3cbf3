/** The pure rules of the interactive front end: which typed text passes as
    an integer, how a blank answer selects the default, how the cash prompt
    reads its answer, and how a 1-based menu number picks an option.

    `input()` becomes a string argument; printing and the re-prompting
    recursion are not modelled (a `Reprompt` result marks where the front end
    asks again). */
module Cli {
  import opened Missing

  // ---------------------------------------------------------------------------
  // Characters and stripping
  // ---------------------------------------------------------------------------

  /** Python's `str.isspace` for one character: the ASCII controls 9-13 and
      28-31, the space, and the Unicode separators. */
  predicate IsSpace(c: char) {
    var n := c as int;
    || 9 <= n <= 13
    || 28 <= n <= 32
    || n == 0x85 || n == 0xA0 || n == 0x1680
    || 0x2000 <= n <= 0x200A
    || n == 0x2028 || n == 0x2029 || n == 0x202F || n == 0x205F || n == 0x3000
  }

  predicate IsDigit(c: char) {
    '0' <= c <= '9'
  }

  /** The number of leading whitespace characters. */
  function LeadingSpaces(s: string): (n: nat)
    ensures n <= |s|
    ensures forall k :: 0 <= k < n ==> IsSpace(s[k])
    ensures n < |s| ==> !IsSpace(s[n])
    decreases |s|
  {
    if |s| == 0 || !IsSpace(s[0]) then 0 else 1 + LeadingSpaces(s[1..])
  }

  /** The number of trailing whitespace characters. */
  function TrailingSpaces(s: string): (n: nat)
    ensures n <= |s|
    ensures forall k :: |s| - n <= k < |s| ==> IsSpace(s[k])
    ensures n < |s| ==> !IsSpace(s[|s| - n - 1])
    decreases |s|
  {
    if |s| == 0 || !IsSpace(s[|s| - 1]) then 0 else 1 + TrailingSpaces(s[..|s| - 1])
  }

  /** `str.strip()`: the slice left once whitespace is removed from both ends.
      Only whitespace is removed, and the result neither starts nor ends with
      whitespace. */
  function Strip(s: string): (r: string)
    ensures exists i, j :: (0 <= i <= j <= |s| && r == s[i..j] &&
      (forall k :: 0 <= k < i ==> IsSpace(s[k])) &&
      (forall k :: j <= k < |s| ==> IsSpace(s[k])))
    ensures |r| > 0 ==> !IsSpace(r[0]) && !IsSpace(r[|r| - 1])
  {
    var i := LeadingSpaces(s);
    var rest := s[i..];
    var t := TrailingSpaces(rest);
    var j := |s| - t;
    var r := rest[..|rest| - t];
    assert r == s[i..j];
    forall k | j <= k < |s|
      ensures IsSpace(s[k])
    {
      assert s[k] == rest[k - i];
    }
    assert 0 <= i <= j <= |s| && r == s[i..j] &&
      (forall k :: 0 <= k < i ==> IsSpace(s[k])) &&
      (forall k :: j <= k < |s| ==> IsSpace(s[k]));
    assert |r| > 0 ==> !IsSpace(r[0]) && !IsSpace(r[|r| - 1]) by {
      if |r| > 0 {
        assert r[0] == s[i];
        assert r[|r| - 1] == rest[|rest| - t - 1];
      }
    }
    r
  }

  /** The test `not value.strip()`. */
  predicate IsBlank(s: string) {
    |Strip(s)| == 0
  }

  /** A string strips to nothing exactly when it is all whitespace. */
  lemma BlankIffAllSpace(s: string)
    ensures IsBlank(s) <==> forall k :: 0 <= k < |s| ==> IsSpace(s[k])
  {
    var r := Strip(s);
    var i, j :| 0 <= i <= j <= |s| && r == s[i..j] &&
      (forall k :: 0 <= k < i ==> IsSpace(s[k])) &&
      (forall k :: j <= k < |s| ==> IsSpace(s[k]));
    if |r| > 0 {
      assert r[0] == s[i];
    } else {
      assert i == j;
      forall k | 0 <= k < |s|
        ensures IsSpace(s[k])
      {
        if k >= i {
          assert j <= k;
        }
      }
    }
  }

  // ---------------------------------------------------------------------------
  // Integer input
  // ---------------------------------------------------------------------------

  /** Characters `str.isnumeric` accepts that are not decimal digits, so
      `int()` refuses them: the Latin-1 superscripts and fractions (² ³ ¹ ¼ ½
      ¾), the super- and subscript digits, the vulgar fractions and Roman
      numerals of the Number Forms block, and the circled, parenthesised and
      dingbat numbers. */
  predicate IsOtherNumeric(c: char) {
    var n := c as int;
    || n == 0xB2 || n == 0xB3 || n == 0xB9 || 0xBC <= n <= 0xBE
    || n == 0x2070 || 0x2074 <= n <= 0x2079 || 0x2080 <= n <= 0x2089
    || 0x2150 <= n <= 0x2182 || 0x2185 <= n <= 0x2189
    || 0x2460 <= n <= 0x249B || 0x24EA <= n <= 0x24FF || 0x2776 <= n <= 0x2793
  }

  /** One character of `str.isnumeric`: an ASCII digit or another numeral. */
  predicate IsNumericChar(c: char) {
    IsDigit(c) || IsOtherNumeric(c)
  }

  /** `str.isnumeric()`: non-empty, and every character a numeral. */
  predicate IsNumeric(s: string) {
    |s| > 0 && forall k :: 0 <= k < |s| ==> IsNumericChar(s[k])
  }

  /** Non-empty and all ASCII decimal digits: what `int()` reads. */
  predicate IsDecimal(s: string) {
    |s| > 0 && forall k :: 0 <= k < |s| ==> IsDigit(s[k])
  }

  /** `validate_integer_input`: a blank answer passes (the default will be
      used); anything else passes only if every character is a numeral. The
      text is not stripped first, so a sign or padding fails. */
  function ValidateIntegerInput(value: string): (ok: bool)
    ensures ok <==>
      (forall k :: 0 <= k < |value| ==> IsSpace(value[k])) ||
      (|value| > 0 && forall k :: 0 <= k < |value| ==> IsNumericChar(value[k]))
  {
    BlankIffAllSpace(value);
    if IsBlank(value) then true else IsNumeric(value)
  }

  /** Blank answers pass, as the front end's own tests expect. */
  lemma BlankInputAccepted()
    ensures ValidateIntegerInput("")
    ensures ValidateIntegerInput("   ")
  {
  }

  /** Plain digits pass. */
  lemma DigitInputAccepted()
    ensures ValidateIntegerInput("20")
  {
  }

  /** Letters fail, as the front end's own tests expect. */
  lemma LettersRejected()
    ensures !ValidateIntegerInput("some random string")
  {
    RefusedAt("some random string", 0, 0);
  }

  /** A sign and surrounding spaces fail too, because the text is not
      stripped before the numeral test. */
  lemma NonDigitInputRejected()
    ensures !ValidateIntegerInput("-1")
    ensures !ValidateIntegerInput(" 20 ")
  {
    RefusedAt("-1", 0, 0);
    RefusedAt(" 20 ", 0, 1);
  }

  /** A character that is not a digit, together with one that is not
      whitespace, makes the answer fail validation. */
  lemma RefusedAt(s: string, i: nat, j: nat)
    requires i < |s| && j < |s| && !IsNumericChar(s[i]) && !IsSpace(s[j])
    ensures !ValidateIntegerInput(s)
  {
  }

  function DigitValue(c: char): nat
    requires IsDigit(c)
  {
    c as int - '0' as int
  }

  /** The value of a string of decimal digits. */
  function DigitsValue(s: string): nat
    requires forall k :: 0 <= k < |s| ==> IsDigit(s[k])
    decreases |s|
  {
    if |s| == 0 then 0 else DigitsValue(s[..|s| - 1]) * 10 + DigitValue(s[|s| - 1])
  }

  /** The decimal rendering of a natural number, without leading zeros. */
  function Digits(n: nat): (s: string)
    ensures |s| > 0 && forall k :: 0 <= k < |s| ==> IsDigit(s[k])
    decreases n
  {
    var d := [('0' as int + n % 10) as char];
    if n < 10 then d else Digits(n / 10) + d
  }

  lemma {:induction false} DigitsRoundTrip(n: nat)
    ensures DigitsValue(Digits(n)) == n
    decreases n
  {
    var s := Digits(n);
    if n >= 10 {
      DigitsRoundTrip(n / 10);
      assert s[..|s| - 1] == Digits(n / 10);
    }
  }

  /** `int(text)` for ASCII text: surrounding whitespace, an optional sign,
      then one or more digits; anything else raises `ValueError` (`None`). */
  function ParseInt(text: string): (r: Option<int>)
    ensures IsDecimal(text) ==> r == Some(DigitsValue(text))
    ensures IsNumeric(text) && !IsDecimal(text) ==> r.None?
  {
    var t := Strip(text);
    assert IsNumeric(text) ==> t == text by {
      if IsNumeric(text) { StripNumeric(text); }
    }
    assert IsNumeric(text) ==> t[0] != '-' && t[0] != '+' by {
      if IsNumeric(text) { assert IsNumericChar(text[0]); }
    }
    if IsDecimal(t) then Some(DigitsValue(t))
    else if |t| > 1 && (t[0] == '-' || t[0] == '+') && IsDecimal(t[1..]) then
      var v: int := DigitsValue(t[1..]);
      Some(if t[0] == '-' then -v else v)
    else None
  }

  lemma StripNumeric(s: string)
    requires IsNumeric(s)
    ensures Strip(s) == s
  {
    StripUnpadded(s);
  }

  /** Text that neither starts nor ends with whitespace strips to itself. */
  lemma StripUnpadded(s: string)
    requires |s| > 0 && !IsSpace(s[0]) && !IsSpace(s[|s| - 1])
    ensures Strip(s) == s
  {
    assert LeadingSpaces(s) == 0;
    assert s[0..] == s;
    assert TrailingSpaces(s) == 0;
  }

  /** A number typed as its digits parses back to itself, with or without a
      leading minus. */
  lemma ParseIntRoundTrip(n: nat)
    ensures ParseInt(Digits(n)) == Some(n)
    ensures n > 0 ==> ParseInt("-" + Digits(n)) == Some(-(n as int))
  {
    DigitsRoundTrip(n);
    ParseNegative(n);
  }

  lemma ParseNegative(n: nat)
    ensures ParseInt("-" + Digits(n)) == Some(-(n as int))
  {
    DigitsRoundTrip(n);
    var d := Digits(n);
    var s := "-" + d;
    assert s[1..] == d;
    assert s[|s| - 1] == d[|d| - 1];
    StripUnpadded(s);
    assert !IsDecimal(s) by {
      assert !IsDigit(s[0]);
    }
  }

  // ---------------------------------------------------------------------------
  // Blank means default
  // ---------------------------------------------------------------------------

  /** An integer hyperparameter answer: blank selects the default, otherwise
      the text goes through `int()`, whose `ValueError` is not caught there. */
  datatype Field = UseDefault | Given(n: int) | ValueError

  function IntegerField(text: string): Field {
    if IsBlank(text) then UseDefault
    else match ParseInt(text)
      case Some(n) => Given(n)
      case None => ValueError
  }

  /** An answer that passed validation is the default when blank, and
      otherwise a non-negative number exactly when it is all decimal digits:
      a numeral such as "½" passes validation yet makes `int()` raise
      `ValueError`. */
  lemma ValidatedFieldConverts(text: string)
    requires ValidateIntegerInput(text)
    ensures IntegerField(text) == UseDefault <==> IsBlank(text)
    ensures IntegerField(text) == ValueError <==> !IsBlank(text) && !IsDecimal(text)
    ensures IntegerField(text).Given? ==> IntegerField(text).n >= 0 && IsDecimal(text)
  {
    BlankIffAllSpace(text);
  }

  /** "½" and "²" are numerals to `isnumeric`, so validation passes them,
      but `int()` refuses them: the hyperparameter conversion and the cash
      prompt both raise `ValueError`. */
  lemma NumeralsPassValidationButRaise()
    ensures ValidateIntegerInput("½") && IntegerField("½") == ValueError
    ensures ValidateIntegerInput("²") && CashInput("²") == CashValueError
  {
    var half, two := "½", "²";
    assert IsOtherNumeric(half[0]) && !IsSpace(half[0]) && !IsDigit(half[0]);
    assert IsOtherNumeric(two[0]) && !IsSpace(two[0]) && !IsDigit(two[0]);
    BlankIffAllSpace(half);
    BlankIffAllSpace(two);
    ValidatedFieldConverts(half);
  }

  /** `hyperparameters` re-prompts when an answer fails validation, but it
      discards what the retry returns and converts the refused text anyway. A
      negative number therefore becomes the setting although validation
      refused it. */
  lemma RejectedNegativeStillConverts(n: nat)
    requires n > 0
    ensures !ValidateIntegerInput("-" + Digits(n))
    ensures IntegerField("-" + Digits(n)) == Given(-(n as int))
  {
    var s := "-" + Digits(n);
    assert s[0] == '-';
    RefusedAt(s, 0, 0);
    BlankIffAllSpace(s);
    assert !IsBlank(s);
    ParseNegative(n);
  }

  /** Text without a decimal digit never converts. */
  lemma NoDigitNoNumber(s: string)
    requires forall k :: 0 <= k < |s| ==> !IsDigit(s[k])
    ensures ParseInt(s).None?
  {
    var t := Strip(s);
    var i, j :| 0 <= i <= j <= |s| && t == s[i..j];
    if |t| > 0 {
      assert !IsDigit(t[0]);
    }
    if |t| > 1 {
      assert t[1..][0] == s[i + 1];
    }
  }

  /** Letters are refused by validation, and the conversion that follows
      anyway raises `ValueError`. */
  lemma RejectedLettersRaise()
    ensures !ValidateIntegerInput("abc")
    ensures IntegerField("abc") == ValueError
  {
    var s := "abc";
    RefusedAt(s, 0, 0);
    assert !IsBlank(s) by {
      BlankIffAllSpace(s);
      assert !IsSpace(s[0]);
    }
    NoDigitNoNumber(s);
  }

  /** A number typed as its digits is accepted and read back unchanged. */
  lemma IntegerFieldRoundTrip(n: nat)
    ensures ValidateIntegerInput(Digits(n))
    ensures IntegerField(Digits(n)) == Given(n)
  {
    ParseIntRoundTrip(n);
    StripNumeric(Digits(n));
  }

  /** A text hyperparameter (calculation type, side): blank selects the
      default, otherwise the text itself is used. */
  function TextField(text: string): (f: Option<string>)
    ensures f.None? <==> forall k :: 0 <= k < |text| ==> IsSpace(text[k])
    ensures f.Some? ==> f.value == text
  {
    BlankIffAllSpace(text);
    if IsBlank(text) then None else Some(text)
  }

  /** The amount used when the cash prompt is left blank. */
  const DefaultCash: int := 1000000

  /** The cash prompt: blank gives the default, text that is not numeric is
      refused and asked again, and numeric text goes to `int()`, which raises
      `ValueError` on numerals that are not decimal digits. */
  datatype CashAnswer = Cash(amount: int) | RetryCash | CashValueError

  function CashInput(text: string): (a: CashAnswer)
    ensures (forall k :: 0 <= k < |text| ==> IsSpace(text[k])) ==> a == Cash(DefaultCash)
    ensures IsDecimal(text) ==> a == Cash(DigitsValue(text))
    ensures a.Cash? ==> a.amount >= 0
    ensures a == RetryCash <==> !ValidateIntegerInput(text)
    ensures a == CashValueError <==> IsNumeric(text) && !IsDecimal(text)
  {
    BlankIffAllSpace(text);
    if IsBlank(text) then Cash(DefaultCash)
    else if !IsNumeric(text) then RetryCash
    else match ParseInt(text)
      case Some(n) => Cash(n)
      case None => CashValueError
  }

  // ---------------------------------------------------------------------------
  // Menus
  // ---------------------------------------------------------------------------

  /** One printed menu line: "0. Exit", or "k. option" numbered from 1. */
  datatype MenuLine<T> = ExitLine | Item(number: nat, option: T)

  /** `generate_options`. */
  function Menu<T>(options: seq<T>, showExit: bool): (lines: seq<MenuLine<T>>)
    ensures |lines| == |options| + (if showExit then 1 else 0)
    ensures showExit ==> lines[0] == ExitLine
    ensures forall i :: 0 <= i < |options| ==>
      lines[i + (if showExit then 1 else 0)] == Item(i + 1, options[i])
  {
    var items := seq(|options|, i requires 0 <= i < |options| => Item(i + 1, options[i]));
    if showExit then [ExitLine] + items else items
  }

  /** What a typed menu number leads to. */
  datatype Choice<T> = Exit | Reprompt | Chosen(option: T) | IndexError

  /** A menu number `k`: 0 exits (file and evaluation menus) or asks again
      (calculation type and side); otherwise `options[k - 1]` with Python's
      indexing, so `k - 1` below 0 counts from the end, and out of range
      raises `IndexError`, which is not caught. */
  function Select<T>(options: seq<T>, k: int, onZero: Choice<T>): (c: Choice<T>)
    ensures k == 0 ==> c == onZero
    ensures 1 <= k <= |options| ==> c == Chosen(options[k - 1])
    ensures 1 - |options| <= k < 0 ==> c == Chosen(options[|options| + k - 1])
    ensures k != 0 && c.Chosen? ==> exists i :: 0 <= i < |options| && options[i] == c.option
    ensures k != 0 ==> (c == IndexError <==> k > |options| || k < 1 - |options|)
  {
    if k == 0 then onZero
    else if 1 <= k <= |options| then Chosen(options[k - 1])
    else if 1 - |options| <= k < 1 then Chosen(options[|options| + k - 1])
    else IndexError
  }

  /** Typing the number printed beside an option selects that option. */
  lemma MenuSelectRoundTrip<T>(options: seq<T>, showExit: bool, onZero: Choice<T>, line: nat)
    requires line < |Menu(options, showExit)|
    requires Menu(options, showExit)[line].Item?
    ensures Select(options, Menu(options, showExit)[line].number, onZero)
      == Chosen(Menu(options, showExit)[line].option)
  {
    var i := if showExit then line - 1 else line;
    assert Menu(options, showExit)[i + (if showExit then 1 else 0)] == Item(i + 1, options[i]);
  }

  /** A menu prompt's answer: text that `int()` rejects asks again, a number
      goes to `Select`. */
  function SelectFromText<T>(options: seq<T>, text: string, onZero: Choice<T>): (c: Choice<T>)
    ensures ParseInt(text).None? ==> c == Reprompt
    ensures forall n: nat :: 1 <= n <= |options| ==>
      text == Digits(n) ==> c == Chosen(options[n - 1])
  {
    forall n: nat | 1 <= n <= |options| && text == Digits(n)
      ensures ParseInt(text) == Some(n)
    {
      ParseIntRoundTrip(n);
    }
    match ParseInt(text)
    case None => Reprompt
    case Some(k) => Select(options, k, onZero)
  }

  /** `select_dataset`: no files exits before prompting; otherwise 0 exits,
      the number k in 1..n picks file k, text `int()` refuses asks again, and
      a number past the end raises the uncaught `IndexError`. */
  function SelectDataset(files: seq<string>, text: string): (c: Choice<string>)
    ensures |files| == 0 ==> c == Exit
    ensures c.Chosen? ==> c.option in files
    ensures |files| > 0 && ParseInt(text) == Some(0) ==> c == Exit
    ensures forall n: nat :: 1 <= n <= |files| && text == Digits(n) ==> c == Chosen(files[n - 1])
    ensures |files| > 0 && ParseInt(text).None? ==> c == Reprompt
    ensures |files| > 0 && ParseInt(text).Some? && ParseInt(text).value > |files| ==> c == IndexError
  {
    if |files| == 0 then Exit else SelectFromText(files, text, Exit)
  }

  /** With two files, "2" loads the second and "0" exits. */
  lemma SelectDatasetExample()
    ensures SelectDataset(["a.csv", "b.csv"], "2") == Chosen("b.csv")
    ensures SelectDataset(["a.csv", "b.csv"], "0") == Exit
  {
    var files := ["a.csv", "b.csv"];
    assert SelectDataset(files, "2") == Chosen("b.csv") by {
      assert Digits(2) == "2";
    }
    ParseIntRoundTrip(0);
    assert Digits(0) == "0";
  }

  /** With two files, "3" raises `IndexError`; with no files nothing is
      asked. */
  lemma SelectDatasetPastEnd()
    ensures SelectDataset(["a.csv", "b.csv"], "3") == IndexError
    ensures SelectDataset([], "1") == Exit
  {
    ParseIntRoundTrip(3);
    assert Digits(3) == "3";
  }

  /** With three options, "2" picks the second, and "0" exits or asks
      again, as the menu decides. */
  lemma SelectByNumber()
    ensures SelectFromText(["a", "b", "c"], "2", Exit) == Chosen("b")
    ensures SelectFromText(["a", "b", "c"], "0", Exit) == Exit
    ensures SelectFromText(["a", "b", "c"], "0", Reprompt) == Reprompt
  {
    ParseIntRoundTrip(2);
    ParseIntRoundTrip(0);
    assert Digits(2) == "2" && Digits(0) == "0";
  }

  /** "-1" is not refused: Python reads index -2, the second option from the
      end. */
  lemma SelectNegativeWraps()
    ensures SelectFromText(["a", "b", "c"], "-1", Exit) == Chosen("b")
  {
    ParseIntRoundTrip(1);
    assert Digits(1) == "1";
    assert "-" + "1" == "-1";
  }

  /** "4" is past the end of three options; "x" is not a number. */
  lemma SelectRejected()
    ensures SelectFromText(["a", "b", "c"], "4", Exit) == IndexError
    ensures SelectFromText(["a", "b", "c"], "x", Exit) == Reprompt
  {
    assert SelectFromText(["a", "b", "c"], "4", Exit) == IndexError by {
      ParseIntRoundTrip(4);
      assert Digits(4) == "4";
    }
    var x := "x";
    assert ParseInt(x).None? by {
      assert !IsDigit(x[0]);
      NoDigitNoNumber(x);
    }
  }
}

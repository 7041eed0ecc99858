/** The answer checks of the arithmetic game (level 2) and the memory game
    (level 3). Each check turns the text typed by the player and the
    expected answer kept in the game's state into a verdict; the verdict
    stands for the message the game shows. The expected answer is None
    until the player has asked for a question. */
module Answers {
  import opened Wrappers

  datatype Verdict =
    | Blank       // nothing but whitespace was typed
    | NotANumber  // the text is not an integer
    | Correct
    | Wrong

  // ---------------------------------------------------------------------
  // Whitespace, and removing it from both ends of a text

  /** The characters Python's str.isspace() accepts: str.strip() removes
      them from both ends of a string. */
  predicate IsSpace(c: char) {
    || '\t' <= c <= '\r'
    || '\U{1C}' <= c <= ' '
    || c == '\U{85}' || c == '\U{A0}' || c == '\U{1680}'
    || '\U{2000}' <= c <= '\U{200A}'
    || c == '\U{2028}' || c == '\U{2029}' || c == '\U{202F}' || c == '\U{205F}'
    || c == '\U{3000}'
  }

  /** The characters int() skips around a number. int() maps every
      non-ASCII whitespace character to a space but keeps ASCII characters
      as they are, and then skips only the ASCII space and '\t'..'\r'; so
      the four separators U+001C..U+001F, which str.isspace() accepts, are
      not skipped. */
  predicate IsIntSpace(c: char) {
    IsSpace(c) && !('\U{1C}' <= c <= '\U{1F}')
  }

  predicate AllSpace(s: string) {
    forall i :: 0 <= i < |s| ==> IsSpace(s[i])
  }

  predicate AllIntSpace(s: string) {
    forall i :: 0 <= i < |s| ==> IsIntSpace(s[i])
  }

  /** Neither end of the text is whitespace (the empty text included). */
  predicate Trimmed(s: string) {
    s == [] || (!IsSpace(s[0]) && !IsSpace(s[|s| - 1]))
  }

  /** Removes the leading characters that satisfy space: what is removed
      satisfies it and what is left does not start with such a character. */
  function TrimStart(s: string, space: char -> bool): (r: string)
    ensures |r| <= |s| && r == s[|s| - |r|..]
    ensures forall i :: 0 <= i < |s| - |r| ==> space(s[i])
    ensures r == [] || !space(r[0])
  {
    if s != [] && space(s[0]) then TrimStart(s[1..], space) else s
  }

  /** Removes the trailing characters that satisfy space. */
  function TrimEnd(s: string, space: char -> bool): (r: string)
    ensures |r| <= |s| && r == s[..|r|]
    ensures forall i :: |r| <= i < |s| ==> space(s[i])
    ensures r == [] || !space(r[|r| - 1])
  {
    if s != [] && space(s[|s| - 1]) then TrimEnd(s[..|s| - 1], space) else s
  }

  /** Removes the characters that satisfy space from both ends. */
  function Trim(s: string, space: char -> bool): (r: string)
    ensures r == [] <==> forall i :: 0 <= i < |s| ==> space(s[i])
    ensures r == [] || (!space(r[0]) && !space(r[|r| - 1]))
    ensures r == [] || r[0] in s
  {
    var t := TrimStart(s, space);
    var r := TrimEnd(t, space);
    var skipped := |s| - |t|;
    // an empty r means t is all whitespace, and t cannot start with any
    assert r == [] ==> t == [];
    assert r != [] ==> s[skipped] == t[0] == r[0];
    r
  }

  /** str.strip() with no argument: the text is empty afterwards exactly
      when it held only whitespace, and otherwise starts and ends with a
      character that is not whitespace. */
  function Strip(s: string): (r: string)
    ensures r == [] <==> AllSpace(s)
    ensures Trimmed(r)
  {
    Trim(s, IsSpace)
  }

  lemma {:induction false} TrimStartSkips(spaces: string, rest: string, space: char -> bool)
    requires forall i :: 0 <= i < |spaces| ==> space(spaces[i])
    requires rest == [] || !space(rest[0])
    ensures TrimStart(spaces + rest, space) == rest
  {
    if spaces == [] {
      assert spaces + rest == rest;
    } else {
      assert (spaces + rest)[1..] == spaces[1..] + rest;
      TrimStartSkips(spaces[1..], rest, space);
    }
  }

  lemma {:induction false} TrimEndSkips(rest: string, spaces: string, space: char -> bool)
    requires forall i :: 0 <= i < |spaces| ==> space(spaces[i])
    requires rest == [] || !space(rest[|rest| - 1])
    ensures TrimEnd(rest + spaces, space) == rest
  {
    if spaces == [] {
      assert rest + spaces == rest;
    } else {
      var init := spaces[..|spaces| - 1];
      assert (rest + spaces)[..|rest + spaces| - 1] == rest + init;
      TrimEndSkips(rest, init, space);
    }
  }

  /** Trimming undoes any padding of a text whose ends are not padding. */
  lemma TrimPadded(before: string, text: string, after: string, space: char -> bool)
    requires forall i :: 0 <= i < |before| ==> space(before[i])
    requires forall i :: 0 <= i < |after| ==> space(after[i])
    requires text == [] || (!space(text[0]) && !space(text[|text| - 1]))
    ensures Trim(before + text + after, space) == text
  {
    var s := before + text + after;
    if text == [] {
      forall i | 0 <= i < |s| ensures space(s[i]) {
        if i < |before| { assert s[i] == before[i]; } else { assert s[i] == after[i - |before|]; }
      }
    } else {
      assert s == before + (text + after);
      TrimStartSkips(before, text + after, space);
      TrimEndSkips(text, after, space);
    }
  }

  /** Stripping undoes any whitespace padding of a trimmed text. */
  lemma StripPadded(before: string, text: string, after: string)
    requires AllSpace(before) && AllSpace(after) && Trimmed(text)
    ensures Strip(before + text + after) == text
  {
    TrimPadded(before, text, after, IsSpace);
  }

  // ---------------------------------------------------------------------
  // Python's int() on a string, simplified to an optional sign followed by
  // ASCII decimal digits, surrounded by whitespace

  /** The most digits int() converts from a string: the default of
      sys.int_info.default_max_str_digits (Python 3.11 and the security
      releases of 3.7 to 3.10). Longer digit strings raise ValueError. */
  const IntMaxStrDigits: nat := 4300

  predicate IsDigit(c: char) {
    '0' <= c <= '9'
  }

  predicate AllDigits(s: string) {
    forall i :: 0 <= i < |s| ==> IsDigit(s[i])
  }

  function DigitValue(c: char): nat
    requires IsDigit(c)
  {
    c as int - '0' as int
  }

  function DigitChar(d: nat): (c: char)
    requires d < 10
    ensures IsDigit(c) && DigitValue(c) == d
  {
    ('0' as int + d) as char
  }

  /** The value of a string of decimal digits, most significant first. */
  function DigitsValue(ds: string): nat
    requires AllDigits(ds)
  {
    if ds == [] then 0
    else DigitsValue(ds[..|ds| - 1]) * 10 + DigitValue(ds[|ds| - 1])
  }

  /** int() on a text without surrounding whitespace: an optional sign
      followed by one to IntMaxStrDigits digits; None where int() raises
      ValueError. */
  function ParseIntText(t: string): (r: Option<int>)
    ensures r.Some? ==> t != [] && IsDigit(t[|t| - 1])
    ensures r.Some? ==> IsDigit(t[0]) || t[0] == '+' || t[0] == '-'
  {
    if t == [] then None
    else if t[0] == '+' || t[0] == '-' then
      var ds := t[1..];
      if ds != [] && AllDigits(ds) && |ds| <= IntMaxStrDigits then
        var magnitude: int := DigitsValue(ds);
        Some(if t[0] == '-' then -magnitude else magnitude)
      else None
    else if AllDigits(t) && |t| <= IntMaxStrDigits then Some(DigitsValue(t))
    else None
  }

  /** The text int() reads: s without the characters int() skips at both
      ends. */
  function IntStrip(s: string): (r: string)
    ensures r == [] <==> AllIntSpace(s)
  {
    Trim(s, IsIntSpace)
  }

  /** int(s): a text int() reads as a number holds a character that is not
      whitespace, so it is never blank. */
  function ParseInt(s: string): (r: Option<int>)
    ensures r.Some? ==> !AllSpace(s)
  {
    var t := IntStrip(s);
    var r := ParseIntText(t);
    assert r.Some? ==> !AllSpace(s) by {
      if r.Some? {
        var k :| 0 <= k < |s| && s[k] == t[0];
        assert !IsSpace(s[k]);
      }
    }
    r
  }

  /** str(n) for a natural number: its decimal digits without leading zeros. */
  function DecimalDigits(n: nat): (ds: string)
    ensures ds != [] && AllDigits(ds) && DigitsValue(ds) == n
    ensures ds[0] == '0' ==> n == 0
  {
    if n < 10 then [DigitChar(n)]
    else
      var prefix := DecimalDigits(n / 10);
      var ds := prefix + [DigitChar(n % 10)];
      assert ds[..|ds| - 1] == prefix;
      ds
  }

  /** The number of decimal digits of n, its sign not counted. */
  function DigitCount(n: int): nat {
    |DecimalDigits(if n < 0 then -n else n)|
  }

  /** str(n) for an integer. */
  function DecimalString(n: int): (s: string)
    ensures s != [] && Trimmed(s)
  {
    if n < 0 then "-" + DecimalDigits(-n) else DecimalDigits(n)
  }

  /** The parser reads the decimal form of a number back as that number,
      as long as it is within int()'s digit limit. */
  lemma DecimalRoundTrip(n: int)
    requires DigitCount(n) <= IntMaxStrDigits
    ensures ParseIntText(DecimalString(n)) == Some(n)
  {
    var t := DecimalString(n);
    if n < 0 {
      var ds := DecimalDigits(-n);
      assert t == "-" + ds;
      assert t[0] == '-' && t[1..] == ds;
    } else {
      assert t == DecimalDigits(n);
      assert IsDigit(t[0]);
    }
  }

  /** A number with more digits than the limit is not read, even though
      its digits are well formed. */
  lemma TooManyDigitsRejected(n: int)
    requires DigitCount(n) > IntMaxStrDigits
    ensures ParseIntText(DecimalString(n)) == None
  {
    var t := DecimalString(n);
    if n < 0 {
      assert t[1..] == DecimalDigits(-n);
    } else {
      assert IsDigit(t[0]);
    }
  }

  /** int() reads back what str() writes, whatever whitespace int() skips
      surrounds it. */
  lemma ParseDecimalString(before: string, n: int, after: string)
    requires AllIntSpace(before) && AllIntSpace(after)
    requires DigitCount(n) <= IntMaxStrDigits
    ensures ParseInt(before + DecimalString(n) + after) == Some(n)
  {
    TrimPadded(before, DecimalString(n), after, IsIntSpace);
    DecimalRoundTrip(n);
  }

  /** Leading zeros do not change the value: int("007") is 7. */
  lemma {:induction false} LeadingZeroIgnored(ds: string)
    requires AllDigits(ds)
    ensures AllDigits("0" + ds) && DigitsValue("0" + ds) == DigitsValue(ds)
  {
    if ds != [] {
      var init := ds[..|ds| - 1];
      LeadingZeroIgnored(init);
      assert ("0" + ds)[..|ds|] == "0" + init;
    }
  }

  /** An optional sign followed by one to IntMaxStrDigits digits is read as
      the digits' value, negated after a minus: int("+42") is 42 and
      int("-7") is -7. */
  lemma SignedDigitsText(sign: string, ds: string)
    requires sign == "" || sign == "+" || sign == "-"
    requires ds != [] && AllDigits(ds) && |ds| <= IntMaxStrDigits
    ensures ParseIntText(sign + ds) == Some(if sign == "-" then -(DigitsValue(ds) as int) else DigitsValue(ds))
  {
    if sign != "" {
      assert (sign + ds)[0] == sign[0] && (sign + ds)[1..] == ds;
    } else {
      assert sign + ds == ds;
    }
  }

  /** A leading zero after the sign changes nothing while the digits stay
      within the limit: int("042") is int("42"). */
  lemma ZeroPaddedText(sign: string, ds: string)
    requires sign == "" || sign == "+" || sign == "-"
    requires ds != [] && AllDigits(ds) && |ds| < IntMaxStrDigits
    ensures ParseIntText(sign + ("0" + ds)) == ParseIntText(sign + ds)
  {
    LeadingZeroIgnored(ds);
    SignedDigitsText(sign, "0" + ds);
    SignedDigitsText(sign, ds);
  }

  /** More than IntMaxStrDigits digits are never read, leading zeros
      included: 4301 zeros make int() raise. */
  lemma TooManyDigitsText(sign: string, ds: string)
    requires sign == "" || sign == "+" || sign == "-"
    requires AllDigits(ds) && |ds| > IntMaxStrDigits
    ensures ParseIntText(sign + ds) == None
  {
    if sign != "" {
      assert (sign + ds)[0] == sign[0] && (sign + ds)[1..] == ds;
    } else {
      assert sign + ds == ds;
    }
  }

  /** Padding with whitespace int() skips does not change how a text whose
      ends are not such whitespace is read. */
  lemma ParsePadded(before: string, t: string, after: string)
    requires AllIntSpace(before) && AllIntSpace(after)
    requires t == [] || (!IsIntSpace(t[0]) && !IsIntSpace(t[|t| - 1]))
    ensures ParseInt(before + t + after) == ParseIntText(t)
  {
    TrimPadded(before, t, after, IsIntSpace);
  }

  /** A sign without digits is not a number, however it is padded. */
  lemma LoneSignRejected(before: string, sign: string, after: string)
    requires AllIntSpace(before) && AllIntSpace(after)
    requires sign == "+" || sign == "-"
    ensures ParseInt(before + sign + after) == None
  {
    TrimPadded(before, sign, after, IsIntSpace);
    assert sign[1..] == [];
  }

  /** A character other than a digit anywhere after the first position, or
      a first character that is neither a digit nor a sign, makes the text
      not a number. */
  lemma ParseRejectsNonDigit(s: string, k: nat)
    requires k < |IntStrip(s)| && !IsDigit(IntStrip(s)[k])
    requires k == 0 ==> IntStrip(s)[0] != '+' && IntStrip(s)[0] != '-'
    ensures ParseInt(s) == None
  {
    var t := IntStrip(s);
    if k > 0 {
      assert t[1..][k - 1] == t[k];
    }
  }

  // ---------------------------------------------------------------------
  // The two checks

  /** check_math_answer: a blank answer is refused before it is read, an
      answer int() cannot read is not a number, and otherwise the answer is
      correct exactly when its value is the expected sum. */
  function CheckMathAnswer(userAnswer: string, correctAnswer: Option<int>): (v: Verdict)
    ensures v == Blank <==> AllSpace(userAnswer)
    ensures v == NotANumber <==> !AllSpace(userAnswer) && ParseInt(userAnswer) == None
    ensures v == Correct <==> ParseInt(userAnswer).Some? && correctAnswer == Some(ParseInt(userAnswer).value)
  {
    if Strip(userAnswer) == [] then Blank
    else match ParseInt(userAnswer)
      case None => NotANumber
      case Some(userValue) => if correctAnswer == Some(userValue) then Correct else Wrong
  }

  /** A whitespace-only answer would not be a number either: the blank
      check only chooses which message is shown. */
  lemma BlankIsNotANumber(userAnswer: string)
    requires CheckMathAnswer(userAnswer, None) == Blank
    ensures ParseInt(userAnswer) == None
  {
  }

  /** The separators U+001C..U+001F are whitespace to the blank check but
      not to int(): an answer that starts with one and holds something else
      than whitespace, such as "\x1c5", passes the blank check and is then
      not a number, whatever the expected answer. */
  lemma SeparatorIsNotSkipped(userAnswer: string, correctAnswer: Option<int>)
    requires userAnswer != [] && '\U{1C}' <= userAnswer[0] <= '\U{1F}'
    requires !AllSpace(userAnswer)
    ensures CheckMathAnswer(userAnswer, correctAnswer) == NotANumber
  {
    var t := IntStrip(userAnswer);
    assert TrimStart(userAnswer, IsIntSpace) == userAnswer;
    assert t != [] && t[0] == userAnswer[0];
    assert ParseIntText(t) == None;
  }

  /** The trailing counterpart: an answer that ends with one of
      U+001C..U+001F and holds something else than whitespace, such as
      "5\x1c", strips to a non-blank text and is then not a number. */
  lemma TrailingSeparatorIsNotSkipped(userAnswer: string, correctAnswer: Option<int>)
    requires userAnswer != [] && '\U{1C}' <= userAnswer[|userAnswer| - 1] <= '\U{1F}'
    requires !AllSpace(userAnswer)
    ensures CheckMathAnswer(userAnswer, correctAnswer) == NotANumber
  {
    var last := userAnswer[|userAnswer| - 1];
    var u := TrimStart(userAnswer, IsIntSpace);
    assert u != [] && u[|u| - 1] == last by {
      if u == [] {
        var k :| 0 <= k < |userAnswer| && !IsSpace(userAnswer[k]);
        assert IsIntSpace(userAnswer[k]);
      }
    }
    assert TrimEnd(u, IsIntSpace) == u;
    assert !IsDigit(IntStrip(userAnswer)[|u| - 1]);
    assert ParseInt(userAnswer) == None;
  }

  /** Typing the decimal form of a number within int()'s digit limit,
      padded with whitespace int() skips or not, is correct exactly when
      that number is the expected one; before any question was asked every
      number is wrong. */
  lemma MathAnswerOfNumber(before: string, n: int, after: string, correctAnswer: Option<int>)
    requires AllIntSpace(before) && AllIntSpace(after)
    requires DigitCount(n) <= IntMaxStrDigits
    ensures CheckMathAnswer(before + DecimalString(n) + after, correctAnswer)
      == if correctAnswer == Some(n) then Correct else Wrong
  {
    ParseDecimalString(before, n, after);
  }

  /** check_memory_answer: plain string equality, so the verdict is only
      ever correct or wrong. */
  function CheckMemoryAnswer(userInput: string, sequence: Option<string>): (v: Verdict)
    ensures v == Correct || v == Wrong
    ensures v == Correct <==> sequence == Some(userInput)
  {
    if sequence == Some(userInput) then Correct else Wrong
  }

  /** Unlike the arithmetic check, the memory check does not strip: the
      remembered digits with any padding added are wrong. */
  lemma MemoryAnswerIsExact(before: string, digits: string, after: string)
    ensures CheckMemoryAnswer(before + digits + after, Some(digits)) == Correct
      <==> before == [] && after == []
  {
    if before + digits + after == digits {
      assert |before| + |after| == 0;
    }
  }
}

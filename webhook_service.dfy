/**
 * The question selector of the webhook client: `determineQuestion` picks
 * the problem to answer from the parity of the last two digits of a
 * registration number.
 */
module WebhookService {
  import opened JavaLang

  /** The three answers `determineQuestion` can give. */
  const QUESTION_2_EVEN: string := "QUESTION_2_EVEN"
  const QUESTION_1_ODD: string := "QUESTION_1_ODD"
  const UNKNOWN: string := "UNKNOWN"

  /**
   * `regNo.replaceAll("[^0-9]", "")`: the input with every character
   * outside `0`..`9` removed.
   */
  function Digits(s: string): (d: string)
    ensures AllDigits(d)
    ensures |d| <= |s|
  {
    if s == [] then []
    else (if IsAsciiDigit(s[0]) then [s[0]] else []) + Digits(s[1..])
  }

  /** The positions of `s` that hold a digit: an independent count of them. */
  function DigitPositions(s: string): set<nat> {
    set i: nat | i < |s| && IsAsciiDigit(s[i])
  }

  /**
   * The value of the last two digits of `s`, read as a two-digit decimal
   * number: 10 * (second-to-last digit) + (last digit).
   */
  function LastTwoValue(s: string): (v: nat)
    requires |Digits(s)| >= 2
    ensures v <= 99
  {
    var d := Digits(s);
    10 * DigitValue(d[|d| - 2]) + DigitValue(d[|d| - 1])
  }

  /** `determineQuestion(regNo)`: the result, or the exception it would throw. */
  function DetermineQuestion(regNo: string): (r: Result<string>)
    ensures r.Ok?
    ensures r.value == QUESTION_2_EVEN || r.value == QUESTION_1_ODD || r.value == UNKNOWN
  {
    var digits := Digits(regNo);
    if |digits| >= 2 then
      var lastTwo := digits[|digits| - 2..];
      ParseLastTwo(regNo);
      match ParseInt(lastTwo)
      case Thrown(e) => Thrown(e)
      case Ok(lastTwoDigits) =>
        if JavaRem(lastTwoDigits, 2) == 0 then Ok(QUESTION_2_EVEN) else Ok(QUESTION_1_ODD)
    else
      Ok(UNKNOWN)
  }

  // ---------------------------------------------------------------------
  // The digit filter

  /** The filtered string holds every digit of the input and no other character. */
  lemma {:induction false} DigitsMembers(s: string)
    ensures forall c :: c in Digits(s) <==> c in s && IsAsciiDigit(c)
  {
    if s != [] {
      DigitsMembers(s[1..]);
      assert s == [s[0]] + s[1..];
    }
  }

  /** Filtering distributes over concatenation: the digits keep their order. */
  lemma {:induction false} DigitsAppend(a: string, b: string)
    ensures Digits(a + b) == Digits(a) + Digits(b)
  {
    if a == [] {
      assert a + b == b;
    } else {
      assert (a + b)[0] == a[0];
      assert (a + b)[1..] == a[1..] + b;
      DigitsAppend(a[1..], b);
    }
  }

  /** A string of digits is left as it is: nothing but non-digits is removed. */
  lemma {:induction false} DigitsOfDigitString(s: string)
    requires AllDigits(s)
    ensures Digits(s) == s
  {
    if s != [] {
      assert AllDigits(s[1..]) by {
        forall i | 0 <= i < |s[1..]| ensures IsAsciiDigit(s[1..][i]) {
          assert s[1..][i] == s[i + 1];
        }
      }
      DigitsOfDigitString(s[1..]);
      assert s == [s[0]] + s[1..];
    }
  }

  /** A string without a digit filters to the empty string. */
  lemma {:induction false} DigitsOfNonDigitString(s: string)
    requires forall i :: 0 <= i < |s| ==> !IsAsciiDigit(s[i])
    ensures Digits(s) == []
  {
    if s != [] {
      assert forall i :: 0 <= i < |s[1..]| ==> s[1..][i] == s[i + 1];
      DigitsOfNonDigitString(s[1..]);
    }
  }

  /** Filtering twice is filtering once. */
  lemma DigitsIdempotent(s: string)
    ensures Digits(Digits(s)) == Digits(s)
  {
    DigitsOfDigitString(Digits(s));
  }

  /** Each digit occurs in the result as often as in the input; every other character never. */
  lemma {:induction false} DigitsMultiset(s: string)
    ensures forall c :: multiset(Digits(s))[c] == if IsAsciiDigit(c) then multiset(s)[c] else 0
  {
    if s != [] {
      DigitsMultiset(s[1..]);
      assert s == [s[0]] + s[1..];
      assert multiset(s) == multiset([s[0]]) + multiset(s[1..]);
    }
  }

  /** Appending one character adds its position when it is a digit. */
  lemma DigitPositionsSnoc(init: string, c: char)
    ensures DigitPositions(init + [c]) ==
      DigitPositions(init) + if IsAsciiDigit(c) then {|init|} else {}
  {
    var s := init + [c];
    forall i: nat | i < |init| ensures s[i] == init[i] { }
  }

  /** The filtered string has exactly one character per digit position of the input. */
  lemma {:induction false} DigitsLength(s: string)
    ensures |Digits(s)| == |DigitPositions(s)|
  {
    if s == [] {
      assert DigitPositions(s) == {};
    } else {
      var init, c := s[..|s| - 1], s[|s| - 1];
      assert s == init + [c];
      DigitsAppend(init, [c]);
      assert Digits([c]) == if IsAsciiDigit(c) then [c] else [] by {
        assert [c][1..] == [];
      }
      DigitsLength(init);
      DigitPositionsSnoc(init, c);
      assert |init| !in DigitPositions(init);
    }
  }

  // ---------------------------------------------------------------------
  // Parsing the last two digits

  /**
   * The substring of the last two digits always parses (it is exactly two
   * ASCII digits), to 10 * d1 + d2, a number in 0..99.
   */
  lemma ParseLastTwo(s: string)
    requires |Digits(s)| >= 2
    ensures var d := Digits(s);
      ParseInt(d[|d| - 2..]) == Ok(LastTwoValue(s))
    ensures 0 <= LastTwoValue(s) <= 99
  {
    var d := Digits(s);
    var lastTwo := d[|d| - 2..];
    assert lastTwo == [d[|d| - 2], d[|d| - 1]];
    ParseIntShortUnsigned(lastTwo);
    assert lastTwo[..1] == [d[|d| - 2]];
    assert DecimalValue(lastTwo[..1]) == DigitValue(d[|d| - 2]) by {
      assert lastTwo[..1][..0] == [];
    }
  }

  // ---------------------------------------------------------------------
  // The classification

  /**
   * The answer in terms of the digits alone: UNKNOWN below two digits,
   * otherwise the parity of the last two.
   */
  lemma DetermineQuestionCases(s: string)
    ensures |Digits(s)| < 2 ==> DetermineQuestion(s) == Ok(UNKNOWN)
    ensures |Digits(s)| >= 2 && LastTwoValue(s) % 2 == 0 ==> DetermineQuestion(s) == Ok(QUESTION_2_EVEN)
    ensures |Digits(s)| >= 2 && LastTwoValue(s) % 2 == 1 ==> DetermineQuestion(s) == Ok(QUESTION_1_ODD)
  {
    if |Digits(s)| >= 2 {
      ParseLastTwo(s);
    }
  }

  /** "UNKNOWN" exactly when the input holds fewer than two digits. */
  lemma UnknownIff(s: string)
    ensures DetermineQuestion(s) == Ok(UNKNOWN) <==> |DigitPositions(s)| < 2
  {
    DigitsLength(s);
    DetermineQuestionCases(s);
  }

  /** "QUESTION_2_EVEN" exactly when there are two digits or more and the last two form an even number. */
  lemma EvenIff(s: string)
    ensures DetermineQuestion(s) == Ok(QUESTION_2_EVEN) <==>
      |Digits(s)| >= 2 && LastTwoValue(s) % 2 == 0
  {
    DetermineQuestionCases(s);
  }

  /** Equivalently, "QUESTION_2_EVEN" exactly when the last of two or more digits is 0, 2, 4, 6 or 8. */
  lemma EvenIffLastDigit(s: string)
    ensures DetermineQuestion(s) == Ok(QUESTION_2_EVEN) <==>
      |Digits(s)| >= 2 && Digits(s)[|Digits(s)| - 1] in "02468"
  {
    var d := Digits(s);
    if |d| >= 2 {
      var last := d[|d| - 1];
      assert LastTwoValue(s) % 2 == 0 <==> last in "02468" by {
        TensDoNotChangeParity(DigitValue(d[|d| - 2]), DigitValue(last));
        EvenDigit(last);
      }
    }
    EvenIff(s);
  }

  lemma TensDoNotChangeParity(tens: nat, units: nat)
    ensures (10 * tens + units) % 2 == units % 2
  {
    assert 10 * tens + units == 2 * (5 * tens) + units;
  }

  /** An even digit is one of 0, 2, 4, 6, 8. */
  lemma EvenDigit(c: char)
    requires IsAsciiDigit(c)
    ensures DigitValue(c) % 2 == 0 <==> c in "02468"
  {
    assert "02468" == ['0', '2', '4', '6', '8'];
    if c != '0' && c != '2' && c != '4' && c != '6' && c != '8' {
      assert c == '1' || c == '3' || c == '5' || c == '7' || c == '9';
    }
  }

  /** "QUESTION_1_ODD" exactly when there are two digits or more and the last two form an odd number. */
  lemma OddIff(s: string)
    ensures DetermineQuestion(s) == Ok(QUESTION_1_ODD) <==>
      |Digits(s)| >= 2 && LastTwoValue(s) % 2 == 1
  {
    DetermineQuestionCases(s);
  }

  /** Only the digits matter: two inputs with the same digits get the same answer. */
  lemma SameDigitsSameQuestion(a: string, b: string)
    requires Digits(a) == Digits(b)
    ensures DetermineQuestion(a) == DetermineQuestion(b)
  {
    DetermineQuestionCases(a);
    DetermineQuestionCases(b);
  }

  /** Classifying the filtered digits gives the answer for the original input. */
  lemma DetermineQuestionOfDigits(s: string)
    ensures DetermineQuestion(Digits(s)) == DetermineQuestion(s)
  {
    DigitsIdempotent(s);
    SameDigitsSameQuestion(Digits(s), s);
  }

  /** Inserting characters that are not digits anywhere leaves the answer unchanged. */
  lemma NonDigitsIgnored(a: string, n: string, b: string)
    requires Digits(n) == []
    ensures DetermineQuestion(a + n + b) == DetermineQuestion(a + b)
  {
    DigitsAppend(a, n);
    DigitsAppend(a + n, b);
    DigitsAppend(a, b);
    assert Digits(a) + [] == Digits(a);
    SameDigitsSameQuestion(a + n + b, a + b);
  }

  /**
   * Only the last two digits matter: once an input has two digits or more,
   * prepending anything, digits included, leaves the answer unchanged.
   */
  lemma PrefixIgnored(p: string, s: string)
    requires |Digits(s)| >= 2
    ensures DetermineQuestion(p + s) == DetermineQuestion(s)
  {
    DigitsAppend(p, s);
    var dp, ds := Digits(p), Digits(s);
    var d := Digits(p + s);
    assert d[|d| - 1] == ds[|ds| - 1] && d[|d| - 2] == ds[|ds| - 2];
    assert LastTwoValue(p + s) == LastTwoValue(s);
    DetermineQuestionCases(p + s);
    DetermineQuestionCases(s);
  }

  // ---------------------------------------------------------------------
  // Worked cases

  /** A string made only of two digits or more is classified by its last digit. */
  lemma ClassifyDigitString(d: string)
    requires AllDigits(d) && |d| >= 2
    ensures DetermineQuestion(d) ==
      Ok(if DigitValue(d[|d| - 1]) % 2 == 0 then QUESTION_2_EVEN else QUESTION_1_ODD)
  {
    assert |Digits(d)| >= 2 && LastTwoValue(d) % 2 == DigitValue(d[|d| - 1]) % 2 by {
      DigitsOfDigitString(d);
      TensDoNotChangeParity(DigitValue(d[|d| - 2]), DigitValue(d[|d| - 1]));
    }
    DetermineQuestionCases(d);
  }

  /** "REG12345" has digits "12345"; 45 is odd. */
  lemma ExampleOdd()
    ensures DetermineQuestion("REG12345") == Ok(QUESTION_1_ODD)
  {
    assert Digits("REG12345") == "12345";
    assert "12345"[3..] == "45";
    assert ParseInt("45") == Ok(45);
    assert JavaRem(45, 2) == 1;
  }

  /** "AB10" has digits "10"; 10 is even. */
  lemma ExampleEven()
    ensures DetermineQuestion("AB10") == Ok(QUESTION_2_EVEN)
  {
    assert Digits("AB10") == "10";
    assert "10"[0..] == "10";
    assert ParseInt("10") == Ok(10);
    assert JavaRem(10, 2) == 0;
  }

  /** "10" alone gets the same answer as "AB10". */
  lemma ExampleEvenDigitsOnly()
    ensures DetermineQuestion("10") == Ok(QUESTION_2_EVEN)
  {
    assert Digits("10") == "10";
    assert "10"[0..] == "10";
    assert ParseInt("10") == Ok(10);
    assert JavaRem(10, 2) == 0;
  }

  /** "X" has no digit at all. */
  lemma ExampleUnknown()
    ensures DetermineQuestion("X") == Ok(UNKNOWN)
  {
  }
}

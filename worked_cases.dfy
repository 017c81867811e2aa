/**
 * Concrete expressions run through the pre-check, the sanitiser and the percent
 * rewrite, one step per lemma.
 */
module WorkedCases {

  import opened Options
  import opened Scanning
  import opened Evaluation
  import opened InputRules

  /** The pre-check reads the raw text: a lone `0` divisor is caught, `0.5`, `05` and `00` are not. */
  lemma {:induction false} ZeroDivisorExamples()
    ensures HasZeroDivisor("8/0") && HasZeroDivisor("8/0+1")
    ensures !HasZeroDivisor("8/0.5") && !HasZeroDivisor("8/05") && !HasZeroDivisor("8/00")
  {
  }

  /** `=` on "8/0" or "8/0+1" gives "Error" whatever the evaluator would say. */
  lemma {:induction false} ZeroDivisorGivesError(eval: string -> Option<string>)
    ensures EqualResult("8/0", eval) == ERROR_TEXT
    ensures EqualResult("8/0+1", eval) == ERROR_TEXT
  {
    ZeroDivisorExamples();
  }

  lemma {:induction false} SingleDigit(c: char, w: string)
    requires IsDigit(c)
    requires w == [] || !IsDigit(w[0])
    ensures Sanitize([c] + w) == [c] + Sanitize(w)
  {
    assert TrimRun([c]) == [c] by { assert [c][..0] == []; }
    SanitizeHead([c], w);
  }

  lemma {:induction false} NonDigit(c: char, w: string)
    requires !IsDigit(c)
    ensures Sanitize([c] + w) == [c] + Sanitize(w)
  {
    assert ([c] + w)[1..] == w;
  }

  /** A run of one zero and one digit, followed by a non-digit or nothing. */
  lemma {:induction false} ZeroDigit(d: char, w: string)
    requires IsDigit(d)
    requires w == [] || !IsDigit(w[0])
    ensures Sanitize(['0', d] + w) == [d] + Sanitize(w)
  {
    var run := ['0', d];
    assert AllDigits(run) by {
      assert run[0] == '0' && run[1] == d;
    }
    SanitizeHead(run, w);
    assert TrimRun(run) == [d] by {
      assert run[..1] == ['0'];
      assert StripZeros(['0']) == [];
    }
  }

  /** A run of two zeros and one digit, followed by a non-digit or nothing. */
  lemma {:induction false} ZeroZeroDigit(d: char, w: string)
    requires IsDigit(d)
    requires w == [] || !IsDigit(w[0])
    ensures Sanitize(['0', '0', d] + w) == [d] + Sanitize(w)
  {
    assert TrimRun(['0', '0', d]) == [d] by {
      assert ['0', '0', d][..2] == ['0', '0'];
      assert StripZeros(['0', '0']) == [];
    }
    SanitizeHead(['0', '0', d], w);
  }

  lemma {:induction false} Sanitize007()
    ensures Sanitize("007") == "7"
  {
    ZeroZeroDigit('7', []);
    assert ['0', '0', '7'] + [] == "007";
  }

  lemma {:induction false} Sanitize100()
    ensures Sanitize("100") == "100"
  {
    assert NoRedundantZero("100");
    SanitizeIdentity("100");
  }

  /** Leading zeros go, a run's last digit stays. */
  lemma {:induction false} SanitizeIntegerExamples()
    ensures Sanitize("007") == "7" && Sanitize("000") == "0" && Sanitize("100") == "100"
  {
    Sanitize007();
    ZeroZeroDigit('0', []);
    assert ['0', '0', '0'] + [] == "000";
    Sanitize100();
  }

  lemma {:induction false} Sanitize05()
    ensures Sanitize("05") == "5"
  {
    ZeroDigit('5', []);
    assert ['0', '5'] + [] == "05";
  }

  lemma {:induction false} Sanitize00()
    ensures Sanitize("00") == "0"
  {
    ZeroDigit('0', []);
    assert ['0', '0'] + [] == "00";
  }

  /** Zeros right after a `.` go too, so "0.05" reaches the evaluator as "0.5". */
  lemma {:induction false} SanitizeFractionExample()
    ensures Sanitize("0.05") == "0.5"
  {
    calc {
      Sanitize("0.05");
    == { assert "0.05" == ['0'] + ".05"; SingleDigit('0', ".05"); }
      ['0'] + Sanitize(".05");
    == { assert ".05" == ['.'] + "05"; NonDigit('.', "05"); }
      ['0'] + (['.'] + Sanitize("05"));
    == { Sanitize05(); }
      ['0'] + (['.'] + "5");
    }
  }

  /** A divisor written "00" passes the pre-check but is sanitised to "0". */
  lemma {:induction false} SanitizeDoubleZeroDivisorExample()
    ensures Sanitize("8/00") == "8/0"
  {
    calc {
      Sanitize("8/00");
    == { assert "8/00" == ['8'] + "/00"; SingleDigit('8', "/00"); }
      ['8'] + Sanitize("/00");
    == { assert "/00" == ['/'] + "00"; NonDigit('/', "00"); }
      ['8'] + (['/'] + Sanitize("00"));
    == { Sanitize00(); }
      ['8'] + (['/'] + "0");
    }
  }

  lemma {:induction false} Rewrite2()
    ensures RewritePercent("+2") == "+2"
  {
    calc {
      RewritePercent("+2");
    == { assert "+2"[0] == '+' && "+2"[1..] == "2"; }
      ['+'] + RewritePercent("2");
    == { assert "2" == "2" + []; RewritePercentHeadPlain("2", []); }
      ['+'] + "2";
    }
  }

  lemma {:induction false} Rewrite50PercentPlus2()
    ensures RewritePercent("50%+2") == "(50/100)+2"
  {
    calc {
      RewritePercent("50%+2");
    == { assert "50%+2" == "50" + ("%" + "+2"); RewritePercentHeadPercent("50", "+2"); }
      Percentage("50") + RewritePercent("+2");
    == { Rewrite2(); }
      Percentage("50") + "+2";
    ==
      "(50/100)" + "+2";
    }
  }

  lemma {:induction false} RewritePercentFirst()
    ensures RewritePercent("%5") == "%5"
  {
    calc {
      RewritePercent("%5");
    == { assert "%5"[0] == '%' && "%5"[1..] == "5"; }
      ['%'] + RewritePercent("5");
    == { assert "5" == "5" + []; RewritePercentHeadPlain("5", []); }
      ['%'] + "5";
    }
  }

  /** "50%" becomes "(50/100)"; a `%` with no digit before it is left alone. */
  lemma {:induction false} RewritePercentExamples()
    ensures RewritePercent("50%+2") == "(50/100)+2"
    ensures RewritePercent("%5") == "%5"
  {
    Rewrite50PercentPlus2();
    RewritePercentFirst();
  }

  lemma {:induction false} Sanitize05Divisor()
    ensures Sanitize("8/0.5") == "8/0.5"
  {
    assert NoRedundantZero("8/0.5");
    SanitizeIdentity("8/0.5");
  }

  lemma {:induction false} Sanitize007Plus3()
    ensures Sanitize("007+3") == "7+3"
  {
    calc {
      Sanitize("007+3");
    == { assert "007+3" == ['0', '0', '7'] + "+3"; ZeroZeroDigit('7', "+3"); }
      ['7'] + Sanitize("+3");
    == { assert "+3" == ['+'] + "3"; NonDigit('+', "3"); }
      ['7'] + (['+'] + Sanitize("3"));
    == { assert "3" == ['3'] + []; SingleDigit('3', []); }
      ['7'] + (['+'] + "3");
    }
  }

  lemma {:induction false} Sanitize50PercentPlus2()
    ensures Sanitize("50%+2") == "50%+2"
  {
    assert NoRedundantZero("50%+2");
    SanitizeIdentity("50%+2");
  }

  lemma {:induction false} PrepareDivisorExample()
    ensures Prepare("8/0.5") == "8/0.5"
  {
    calc {
      Prepare("8/0.5");
    ==
      RewritePercent(Sanitize("8/0.5"));
    == { Sanitize05Divisor(); }
      RewritePercent("8/0.5");
    == { assert NoDigitBeforePercent("8/0.5"); RewritePercentIdentity("8/0.5"); }
      "8/0.5";
    }
  }

  lemma {:induction false} PrepareLeadingZerosExample()
    ensures Prepare("007+3") == "7+3"
  {
    calc {
      Prepare("007+3");
    ==
      RewritePercent(Sanitize("007+3"));
    == { Sanitize007Plus3(); }
      RewritePercent("7+3");
    == { assert NoDigitBeforePercent("7+3"); RewritePercentIdentity("7+3"); }
      "7+3";
    }
  }

  lemma {:induction false} PreparePercentExample()
    ensures Prepare("50%+2") == "(50/100)+2"
  {
    calc {
      Prepare("50%+2");
    ==
      RewritePercent(Sanitize("50%+2"));
    == { Sanitize50PercentPlus2(); }
      RewritePercent("50%+2");
    == { Rewrite50PercentPlus2(); }
      "(50/100)+2";
    }
  }

  /** What the evaluator is handed for three expressions that pass the pre-check. */
  lemma {:induction false} PrepareExamples()
    ensures Prepare("8/0.5") == "8/0.5"
    ensures Prepare("007+3") == "7+3"
    ensures Prepare("50%+2") == "(50/100)+2"
  {
    PrepareDivisorExample();
    PrepareLeadingZerosExample();
    PreparePercentExample();
  }

  /** `=` hands "8/0.5", "7+3" and "(50/100)+2" to the evaluator. */
  lemma {:induction false} EqualExamples(eval: string -> Option<string>)
    ensures EqualResult("8/0.5", eval) == (if eval("8/0.5").Some? then eval("8/0.5").value else ERROR_TEXT)
    ensures EqualResult("007+3", eval) == (if eval("7+3").Some? then eval("7+3").value else ERROR_TEXT)
    ensures EqualResult("50%+2", eval) == (if eval("(50/100)+2").Some? then eval("(50/100)+2").value else ERROR_TEXT)
  {
    PrepareExamples();
    PreCheckPasses();
  }

  lemma {:induction false} PreCheckPasses()
    ensures !HasZeroDivisor("8/0.5") && !HasZeroDivisor("007+3") && !HasZeroDivisor("50%+2")
  {
  }

  // ---- Key presses ----

  /** An operator after an operator replaces it. */
  lemma {:induction false} OperatorReplaceExample()
    ensures PressKey("3+", '-') == "3-"
    ensures PressKey("5%", '+') == "5%+"
  {
    assert "3+"[..1] + ['-'] == "3-";
  }

  /** A `.` in a fresh number is taken once; a second one in the same number is not. */
  lemma {:induction false} DotExamples()
    ensures PressKey("3.5+2", '.') == "3.5+2."
    ensures PressKey("3.5+2.", '.') == "3.5+2."
    ensures PressKey(PI_TEXT, '.') == PI_TEXT
  {
    DotTaken();
    DotRefused();
    DotAfterPiRefused();
  }

  lemma {:induction false} DotTaken()
    ensures PressKey("3.5+2", '.') == "3.5+2."
  {
    assert "3.5+" + "2" == "3.5+2";
    LastNumberOf("3.5+", "2");
    DotIgnoredIffNumberHasDot("3.5+2");
  }

  lemma {:induction false} DotRefused()
    ensures PressKey("3.5+2.", '.') == "3.5+2."
  {
    assert "3.5+" + "2." == "3.5+2.";
    LastNumberOf("3.5+", "2.");
    DotIgnoredIffNumberHasDot("3.5+2.");
  }

  lemma {:induction false} DotAfterPiRefused()
    ensures PressKey(PI_TEXT, '.') == PI_TEXT
  {
    assert [] + PI_TEXT == PI_TEXT;
    LastNumberOf([], PI_TEXT);
    DotIgnoredIffNumberHasDot(PI_TEXT);
  }

  /** The number being typed after an operator is exactly the text after it. */
  lemma {:induction false} LastNumberOf(s: string, t: string)
    requires s == [] || EndsWithOperator(s)
    requires NoOperator(t)
    ensures LastNumber(s + t) == t
  {
    LastNumberAfterOperator(s);
    LastNumberAppendToken(s, t);
    assert LastNumber(s) + t == t;
  }

  /** `%` is taken once after a number, never twice in a row. */
  lemma {:induction false} PercentExamples()
    ensures PressKey("5", '%') == "5%"
    ensures PressKey("5%", '%') == "5%"
  {
  }

  /** π starts an expression or follows an operator, and is refused after a digit. */
  lemma {:induction false} PiExamples()
    ensures AppendPi([]) == "3.14159"
    ensures AppendPi("3+") == "3+3.14159"
    ensures AppendPi("3") == "3"
    ensures AppendPi("5%") == "5%"
  {
  }
}

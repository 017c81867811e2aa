/**
 * What `=` does with the expression: the division-by-zero pre-check, the
 * leading-zero sanitiser, the percent rewrite, and the mapping of the evaluator's
 * outcome to the result text.
 */
module Evaluation {

  import opened Options
  import opened Scanning

  const ERROR_TEXT: string := "Error"

  lemma ConcatAssoc(a: string, b: string, c: string)
    ensures a + b + c == a + (b + c)
  {
  }

  // ---- Division-by-zero pre-check ----

  /** `/0` starts at `i` and the `0` is not followed by `.` or a digit. */
  predicate ZeroDivisorAt(s: string, i: nat)
  {
    i + 1 < |s| && s[i] == '/' && s[i + 1] == '0' &&
    (i + 2 == |s| || !(s[i + 2] == '.' || IsDigit(s[i + 2])))
  }

  /** A left-to-right scan for a zero divisor in the raw expression. */
  function HasZeroDivisor(s: string): bool
  {
    if |s| < 2 then false
    else ZeroDivisorAt(s, 0) || HasZeroDivisor(s[1..])
  }

  /** The scan finds a zero divisor exactly when there is one at some position. */
  lemma {:induction false} HasZeroDivisorIff(s: string)
    ensures HasZeroDivisor(s) <==> exists i: nat :: i < |s| && ZeroDivisorAt(s, i)
  {
    if |s| >= 2 {
      HasZeroDivisorIff(s[1..]);
      forall j: nat | j < |s| - 1
        ensures ZeroDivisorAt(s[1..], j) <==> ZeroDivisorAt(s, j + 1)
      {
      }
      if exists i: nat :: i < |s| && ZeroDivisorAt(s, i) {
        var i: nat :| i < |s| && ZeroDivisorAt(s, i);
        if i > 0 {
          assert ZeroDivisorAt(s[1..], i - 1);
        }
      }
    } else {
      assert forall i: nat :: i < |s| ==> !ZeroDivisorAt(s, i);
    }
  }

  // ---- Leading-zero sanitiser ----

  /** `t` without its leading `0` characters. */
  function StripZeros(t: string): (r: string)
    ensures |r| <= |t|
    ensures r == [] || r[0] != '0'
    ensures forall i :: 0 <= i < |t| - |r| ==> t[i] == '0'
  {
    if t != [] && t[0] == '0' then StripZeros(t[1..]) else t
  }

  /** What is left after the zeros are removed is a suffix of the text. */
  lemma {:induction false} StripZerosIsSuffix(t: string)
    ensures StripZeros(t) == t[|t| - |StripZeros(t)|..]
  {
    if t != [] && t[0] == '0' {
      StripZerosIsSuffix(t[1..]);
      assert t[1..][|t| - 1 - |StripZeros(t)|..] == t[|t| - |StripZeros(t)|..];
    }
  }

  /**
   * What the sanitiser makes of one maximal digit run: the zeros leading the run
   * are dropped, but its last digit is always kept.
   */
  function TrimRun(run: string): (r: string)
    requires run != []
    ensures r != [] && |r| <= |run| && r[|r| - 1] == run[|run| - 1]
    ensures AllDigits(run) ==> AllDigits(r)
  {
    StripZerosIsSuffix(run[..|run| - 1]);
    StripZeros(run[..|run| - 1]) + [run[|run| - 1]]
  }

  /** The sanitiser: every maximal digit run trimmed, all other characters kept. */
  function Sanitize(s: string): (r: string)
    decreases |s|
  {
    if s == [] then []
    else if IsDigit(s[0]) then
      var run := DigitRun(s);
      TrimRun(run) + Sanitize(s[|run|..])
    else [s[0]] + Sanitize(s[1..])
  }

  /** The sanitiser never lengthens the expression. */
  lemma {:induction false} SanitizeNeverLengthens(s: string)
    ensures |Sanitize(s)| <= |s|
    decreases |s|
  {
    if s != [] {
      if IsDigit(s[0]) {
        SanitizeNeverLengthens(s[|DigitRun(s)|..]);
      } else {
        SanitizeNeverLengthens(s[1..]);
      }
    }
  }

  /** The characters of `s` that are not digits, in order. */
  function NonDigits(s: string): string
  {
    if s == [] then []
    else if IsDigit(s[0]) then NonDigits(s[1..])
    else [s[0]] + NonDigits(s[1..])
  }

  /** The integer a digit string denotes in base ten. */
  function Value(t: string): nat
  {
    if t == [] then 0
    else 10 * Value(t[..|t| - 1]) + (if IsDigit(t[|t| - 1]) then t[|t| - 1] as int - '0' as int else 0)
  }

  lemma {:induction false} NonDigitsConcat(a: string, b: string)
    ensures NonDigits(a + b) == NonDigits(a) + NonDigits(b)
  {
    if a != [] {
      assert (a + b)[1..] == a[1..] + b;
      NonDigitsConcat(a[1..], b);
    } else {
      assert a + b == b;
    }
  }

  lemma {:induction false} NonDigitsOfDigits(t: string)
    requires AllDigits(t)
    ensures NonDigits(t) == []
  {
    if t != [] {
      NonDigitsOfDigits(t[1..]);
    }
  }

  /** The sanitiser leaves every non-digit character where it was, in order. */
  lemma {:induction false} SanitizeKeepsNonDigits(s: string)
    ensures NonDigits(Sanitize(s)) == NonDigits(s)
    decreases |s|
  {
    if s != [] {
      if IsDigit(s[0]) {
        var run := DigitRun(s);
        var rest := s[|run|..];
        assert s == run + rest;
        SanitizeKeepsNonDigits(rest);
        NonDigitsConcat(TrimRun(run), Sanitize(rest));
        NonDigitsConcat(run, rest);
        NonDigitsOfDigits(TrimRun(run));
        NonDigitsOfDigits(run);
      } else {
        SanitizeKeepsNonDigits(s[1..]);
        assert NonDigits([s[0]] + Sanitize(s[1..])) == [s[0]] + NonDigits(Sanitize(s[1..]));
      }
    }
  }

  lemma {:induction false} ValueConcatDigit(t: string, c: char)
    ensures Value(t + [c]) == 10 * Value(t) + (if IsDigit(c) then c as int - '0' as int else 0)
  {
    assert (t + [c])[..|t|] == t;
  }

  /** A leading `0` does not change the integer a digit string denotes. */
  lemma {:induction false} ValueLeadingZero(t: string)
    ensures Value(['0'] + t) == Value(t)
    decreases |t|
  {
    if t != [] {
      var init, c := t[..|t| - 1], t[|t| - 1];
      ValueLeadingZero(init);
      assert ['0'] + t == (['0'] + init) + [c];
      ValueConcatDigit(['0'] + init, c);
      ValueConcatDigit(init, c);
      assert t == init + [c];
    } else {
      assert Value(['0']) == 10 * Value([]) + 0;
    }
  }

  lemma {:induction false} ValueStripZeros(t: string)
    ensures Value(StripZeros(t)) == Value(t)
  {
    if t != [] && t[0] == '0' {
      ValueStripZeros(t[1..]);
      assert t == ['0'] + t[1..];
      ValueLeadingZero(t[1..]);
    }
  }

  /**
   * Trimming a run never changes the integer it denotes; read as an integer part
   * that is the intent, read as digits after a `.` it is not ("05" in "0.05").
   */
  lemma TrimRunKeepsValue(run: string)
    requires run != []
    ensures Value(TrimRun(run)) == Value(run)
  {
    var init, c := run[..|run| - 1], run[|run| - 1];
    ValueStripZeros(init);
    ValueConcatDigit(StripZeros(init), c);
    ValueConcatDigit(init, c);
    assert run == init + [c];
  }

  /** A `0` that starts a digit run and has another digit after it. */
  predicate RedundantZeroAt(s: string, i: nat)
  {
    i + 1 < |s| && s[i] == '0' && IsDigit(s[i + 1]) && (i == 0 || !IsDigit(s[i - 1]))
  }

  /** No digit run of `s` starts with a zero that the sanitiser would strip. */
  predicate NoRedundantZero(s: string)
  {
    forall i: nat :: i < |s| ==> !RedundantZeroAt(s, i)
  }

  lemma {:induction false} NoRedundantZeroConcat(a: string, b: string)
    requires NoRedundantZero(a) && NoRedundantZero(b)
    requires (a == [] || !IsDigit(a[|a| - 1])) || (b == [] || !IsDigit(b[0]))
    ensures NoRedundantZero(a + b)
  {
    var t := a + b;
    forall i: nat | i < |t|
      ensures !RedundantZeroAt(t, i)
    {
      if i + 1 < |a| {
        assert t[i] == a[i] && t[i + 1] == a[i + 1];
        assert i > 0 ==> t[i - 1] == a[i - 1];
        assert !RedundantZeroAt(a, i);
      } else if i + 1 == |a| {
        assert t[i] == a[i];
        if |b| > 0 {
          assert t[i + 1] == b[0];
        }
      } else {
        var j := i - |a|;
        assert t[i] == b[j];
        assert i + 1 < |t| ==> t[i + 1] == b[j + 1];
        assert j > 0 ==> t[i - 1] == b[j - 1];
        assert j == 0 && |a| > 0 ==> t[i - 1] == a[|a| - 1];
        assert !RedundantZeroAt(b, j);
      }
    }
  }

  /** A trimmed run has no zero left to strip. */
  lemma TrimRunHasNoRedundantZero(run: string)
    requires run != [] && AllDigits(run)
    ensures NoRedundantZero(TrimRun(run))
  {
    var t := TrimRun(run);
    var z := StripZeros(run[..|run| - 1]);
    assert t == z + [run[|run| - 1]];
    assert |t| > 1 ==> t[0] == z[0];
    forall i: nat | i < |t|
      ensures !RedundantZeroAt(t, i)
    {
      if i > 0 {
        assert IsDigit(t[i - 1]);
      }
    }
  }

  /** No digit run of the sanitiser's output starts with a zero it would strip. */
  lemma {:induction false} SanitizeLeavesNoRedundantZero(s: string)
    ensures NoRedundantZero(Sanitize(s))
    decreases |s|
  {
    if s != [] {
      if IsDigit(s[0]) {
        var run := DigitRun(s);
        var rest := s[|run|..];
        SanitizeLeavesNoRedundantZero(rest);
        TrimRunHasNoRedundantZero(run);
        SanitizeStartsWith(rest);
        NoRedundantZeroConcat(TrimRun(run), Sanitize(rest));
      } else {
        SanitizeLeavesNoRedundantZero(s[1..]);
        assert NoRedundantZero([s[0]]);
        NoRedundantZeroConcat([s[0]], Sanitize(s[1..]));
      }
    }
  }

  /** Text with no zero to strip is left exactly as it is. */
  lemma {:induction false} SanitizeIdentity(s: string)
    requires NoRedundantZero(s)
    ensures Sanitize(s) == s
    decreases |s|
  {
    if s != [] {
      if IsDigit(s[0]) {
        var run := DigitRun(s);
        var rest := s[|run|..];
        assert s == run + rest;
        if |run| > 1 {
          assert !RedundantZeroAt(s, 0);
          assert run[0] != '0';
        }
        assert StripZeros(run[..|run| - 1]) == run[..|run| - 1];
        assert TrimRun(run) == run;
        forall j: nat | j < |rest|
          ensures !RedundantZeroAt(rest, j)
        {
          assert !RedundantZeroAt(s, |run| + j);
          assert rest[j] == s[|run| + j];
          assert j + 1 < |rest| ==> rest[j + 1] == s[|run| + j + 1];
          assert j > 0 ==> rest[j - 1] == s[|run| + j - 1];
        }
        SanitizeIdentity(rest);
      } else {
        var rest := s[1..];
        forall j: nat | j < |rest|
          ensures !RedundantZeroAt(rest, j)
        {
          assert !RedundantZeroAt(s, j + 1);
          assert rest[j] == s[j + 1];
          assert j + 1 < |rest| ==> rest[j + 1] == s[j + 2];
          assert j > 0 ==> rest[j - 1] == s[j];
        }
        SanitizeIdentity(rest);
      }
    }
  }

  /** Sanitising twice is sanitising once. */
  lemma SanitizeIdempotent(s: string)
    ensures Sanitize(Sanitize(s)) == Sanitize(s)
  {
    SanitizeLeavesNoRedundantZero(s);
    SanitizeIdentity(Sanitize(s));
  }

  /** The sanitiser keeps a leading non-digit in front. */
  lemma SanitizeStartsWith(s: string)
    requires s != [] ==> !IsDigit(s[0])
    ensures Sanitize(s) == [] || !IsDigit(Sanitize(s)[0])
  {
  }

  /** A text that starts with a digit: its first maximal run and what follows it. */
  lemma FirstRun(s: string) returns (run: string, rest: string)
    requires s != [] && IsDigit(s[0])
    ensures run == DigitRun(s) && rest == s[|run|..]
    ensures s == run + rest && run != [] && AllDigits(run)
    ensures rest == [] || !IsDigit(rest[0])
  {
    run := DigitRun(s);
    rest := s[|run|..];
    assert s == run + rest;
  }

  /** A run at the front of the text is trimmed as a whole, whatever follows it. */
  lemma SanitizeHead(run: string, w: string)
    requires run != [] && AllDigits(run)
    requires w == [] || !IsDigit(w[0])
    ensures Sanitize(run + w) == TrimRun(run) + Sanitize(w)
  {
    DigitRunOfConcat(run, w);
    assert (run + w)[|run|..] == w;
  }

  /** A text that starts with a digit and ends with a non-digit: its first run and the rest. */
  lemma LeadingRun(p: string) returns (run: string, rest: string)
    requires p != [] && IsDigit(p[0]) && !IsDigit(p[|p| - 1])
    ensures run == DigitRun(p) && rest == p[|run|..]
    ensures p == run + rest && run != [] && AllDigits(run)
    ensures rest != [] && !IsDigit(rest[0]) && !IsDigit(rest[|rest| - 1])
  {
    run, rest := FirstRun(p);
    assert p[|p| - 1] == (run + rest)[|p| - 1];
  }

  /** One step of the sanitiser's run-by-run decomposition: a leading run and what follows it. */
  lemma {:induction false} SanitizeNonDigitStep(p: string, q: string)
    requires p != [] && !IsDigit(p[0])
    requires Sanitize(p[1..] + q) == Sanitize(p[1..]) + Sanitize(q)
    ensures Sanitize(p + q) == Sanitize(p) + Sanitize(q)
  {
    assert (p + q)[1..] == p[1..] + q;
    ConcatAssoc([p[0]], Sanitize(p[1..]), Sanitize(q));
  }

  lemma {:induction false} SanitizeStepConcat(p: string, run: string, rest: string, q: string)
    requires p == run + rest
    requires run != [] && AllDigits(run)
    requires rest != [] && !IsDigit(rest[0])
    requires Sanitize(rest + q) == Sanitize(rest) + Sanitize(q)
    ensures Sanitize(p + q) == Sanitize(p) + Sanitize(q)
  {
    ConcatAssoc(run, rest, q);
    SanitizeHead(run, rest);
    SanitizeHead(run, rest + q);
    ConcatAssoc(TrimRun(run), Sanitize(rest), Sanitize(q));
  }

  /**
   * The sanitiser works run by run: text ending in a non-digit is sanitised on
   * its own, whatever follows it.
   */
  lemma {:induction false} SanitizeConcat(p: string, q: string)
    requires p == [] || !IsDigit(p[|p| - 1])
    ensures Sanitize(p + q) == Sanitize(p) + Sanitize(q)
    decreases |p|
  {
    if p == [] {
      assert p + q == q;
    } else if IsDigit(p[0]) {
      var run, rest := LeadingRun(p);
      SanitizeConcat(rest, q);
      SanitizeStepConcat(p, run, rest, q);
    } else {
      SanitizeConcat(p[1..], q);
      SanitizeNonDigitStep(p, q);
    }
  }

  /** Each maximal digit run of the expression is replaced by its trimmed form. */
  lemma {:induction false} SanitizeRun(p: string, run: string, q: string)
    requires p == [] || !IsDigit(p[|p| - 1])
    requires run != [] && AllDigits(run)
    requires q == [] || !IsDigit(q[0])
    ensures Sanitize(p + (run + q)) == Sanitize(p) + (TrimRun(run) + Sanitize(q))
  {
    SanitizeConcat(p, run + q);
    SanitizeHead(run, q);
  }

  // ---- Percent rewrite ----

  /** The text a run followed by `%` becomes: `(run/100)`. */
  function Percentage(run: string): (r: string)
    ensures r != [] && r[|r| - 1] == ')'
    ensures '%' in r <==> '%' in run
  {
    "(" + run + "/100)"
  }

  /** Every maximal digit run directly followed by `%` becomes `(run/100)`. */
  function RewritePercent(s: string): (r: string)
    decreases |s|
  {
    if s == [] then []
    else if IsDigit(s[0]) then
      var run := DigitRun(s);
      var rest := s[|run|..];
      if rest != [] && rest[0] == '%' then Percentage(run) + RewritePercent(rest[1..])
      else run + RewritePercent(rest)
    else [s[0]] + RewritePercent(s[1..])
  }

  /** No digit is directly followed by `%`. */
  predicate NoDigitBeforePercent(s: string)
  {
    forall i :: 0 <= i < |s| - 1 ==> !(IsDigit(s[i]) && s[i + 1] == '%')
  }

  lemma NoDigitBeforePercentConcat(a: string, b: string)
    requires NoDigitBeforePercent(a) && NoDigitBeforePercent(b)
    requires a != [] && b != [] ==> !(IsDigit(a[|a| - 1]) && b[0] == '%')
    ensures NoDigitBeforePercent(a + b)
  {
    var t := a + b;
    forall i | 0 <= i < |t| - 1
      ensures !(IsDigit(t[i]) && t[i + 1] == '%')
    {
      if i < |a| - 1 {
        assert t[i] == a[i] && t[i + 1] == a[i + 1];
      } else if i == |a| - 1 {
        assert t[i] == a[|a| - 1] && t[i + 1] == b[0];
      } else {
        assert t[i] == b[i - |a|] && t[i + 1] == b[i - |a| + 1];
      }
    }
  }

  /** After the rewrite no `%` is left directly behind a digit. */
  lemma {:induction false} RewritePercentLeavesNoDigitBeforePercent(s: string)
    ensures NoDigitBeforePercent(RewritePercent(s))
    decreases |s|
  {
    if s != [] {
      if IsDigit(s[0]) {
        var run := DigitRun(s);
        var rest := s[|run|..];
        if rest != [] && rest[0] == '%' {
          RewritePercentLeavesNoDigitBeforePercent(rest[1..]);
          assert '%' !in run;
          NoDigitBeforePercentConcat(Percentage(run), RewritePercent(rest[1..]));
        } else {
          RewritePercentLeavesNoDigitBeforePercent(rest);
          assert NoDigitBeforePercent(run);
          NoDigitBeforePercentConcat(run, RewritePercent(rest));
        }
      } else {
        RewritePercentLeavesNoDigitBeforePercent(s[1..]);
        NoDigitBeforePercentConcat([s[0]], RewritePercent(s[1..]));
      }
    }
  }

  /** A `%` with no digit before it stays out of reach in every suffix. */
  lemma NoDigitBeforePercentSuffix(s: string, k: nat)
    requires NoDigitBeforePercent(s) && k <= |s|
    ensures NoDigitBeforePercent(s[k..])
  {
    var t := s[k..];
    forall i | 0 <= i < |t| - 1
      ensures !(IsDigit(t[i]) && t[i + 1] == '%')
    {
      assert t[i] == s[k + i] && t[i + 1] == s[k + i + 1];
    }
  }

  lemma {:induction false} IdentityRunStep(s: string, run: string, rest: string)
    requires s == run + rest && run != [] && AllDigits(run)
    requires rest == [] || (!IsDigit(rest[0]) && rest[0] != '%')
    requires RewritePercent(rest) == rest
    ensures RewritePercent(s) == s
  {
    RewritePercentHeadPlain(run, rest);
  }

  lemma {:induction false} IdentityCharStep(s: string)
    requires s != [] && !IsDigit(s[0])
    requires RewritePercent(s[1..]) == s[1..]
    ensures RewritePercent(s) == s
  {
    assert s == [s[0]] + s[1..];
  }

  /** Text with no `%` directly behind a digit is left exactly as it is. */
  lemma {:induction false} RewritePercentIdentity(s: string)
    requires NoDigitBeforePercent(s)
    ensures RewritePercent(s) == s
    decreases |s|
  {
    if s != [] {
      NoDigitBeforePercentSuffix(s, 1);
      if IsDigit(s[0]) {
        var run, rest := FirstRun(s);
        NoDigitBeforePercentSuffix(s, |run|);
        assert rest != [] ==> s[|run| - 1] == run[|run| - 1] && s[|run|] == rest[0];
        RewritePercentIdentity(rest);
        IdentityRunStep(s, run, rest);
      } else {
        RewritePercentIdentity(s[1..]);
        IdentityCharStep(s);
      }
    }
  }

  /** Rewriting twice is rewriting once. */
  lemma RewritePercentIdempotent(s: string)
    ensures RewritePercent(RewritePercent(s)) == RewritePercent(s)
  {
    RewritePercentLeavesNoDigitBeforePercent(s);
    RewritePercentIdentity(RewritePercent(s));
  }

  /** A run at the front of the text, followed by `%`, becomes its percentage. */
  lemma {:induction false} RewritePercentHeadPercent(run: string, w: string)
    requires run != [] && AllDigits(run)
    ensures RewritePercent(run + ("%" + w)) == Percentage(run) + RewritePercent(w)
  {
    var t := run + ("%" + w);
    DigitRunOfConcat(run, "%" + w);
    assert t[|run|..] == "%" + w;
    assert ("%" + w)[1..] == w;
  }

  /** A run at the front of the text, not followed by `%`, is kept as it is. */
  lemma {:induction false} RewritePercentHeadPlain(run: string, w: string)
    requires run != [] && AllDigits(run)
    requires w == [] || (!IsDigit(w[0]) && w[0] != '%')
    ensures RewritePercent(run + w) == run + RewritePercent(w)
  {
    DigitRunOfConcat(run, w);
    assert (run + w)[|run|..] == w;
  }

  lemma {:induction false} PercentStepConcat(run: string, w: string, q: string)
    requires run != [] && AllDigits(run)
    requires RewritePercent(w + q) == RewritePercent(w) + RewritePercent(q)
    ensures RewritePercent(run + ("%" + w) + q) == RewritePercent(run + ("%" + w)) + RewritePercent(q)
  {
    ConcatAssoc(run, "%" + w, q);
    ConcatAssoc("%", w, q);
    RewritePercentHeadPercent(run, w);
    RewritePercentHeadPercent(run, w + q);
    ConcatAssoc(Percentage(run), RewritePercent(w), RewritePercent(q));
  }

  lemma {:induction false} PlainStepConcat(run: string, rest: string, q: string)
    requires run != [] && AllDigits(run)
    requires rest != [] && !IsDigit(rest[0]) && rest[0] != '%'
    requires RewritePercent(rest + q) == RewritePercent(rest) + RewritePercent(q)
    ensures RewritePercent(run + rest + q) == RewritePercent(run + rest) + RewritePercent(q)
  {
    ConcatAssoc(run, rest, q);
    RewritePercentHeadPlain(run, rest);
    RewritePercentHeadPlain(run, rest + q);
    ConcatAssoc(run, RewritePercent(rest), RewritePercent(q));
  }

  lemma {:induction false} PlainCharStepConcat(p: string, q: string)
    requires p != [] && !IsDigit(p[0])
    requires RewritePercent(p[1..] + q) == RewritePercent(p[1..]) + RewritePercent(q)
    ensures RewritePercent(p + q) == RewritePercent(p) + RewritePercent(q)
  {
    assert (p + q)[0] == p[0] && (p + q)[1..] == p[1..] + q;
    assert RewritePercent(p) == [p[0]] + RewritePercent(p[1..]);
    assert RewritePercent(p + q) == [p[0]] + RewritePercent(p[1..] + q);
    ConcatAssoc([p[0]], RewritePercent(p[1..]), RewritePercent(q));
  }

  /** One step of the rewrite's run-by-run decomposition: a leading run and what follows it. */
  lemma {:induction false} RunStepConcat(p: string, run: string, rest: string, q: string)
    requires p == run + rest
    requires run != [] && AllDigits(run)
    requires rest != [] && !IsDigit(rest[0])
    requires rest[0] == '%' ==> RewritePercent(rest[1..] + q) == RewritePercent(rest[1..]) + RewritePercent(q)
    requires rest[0] != '%' ==> RewritePercent(rest + q) == RewritePercent(rest) + RewritePercent(q)
    ensures RewritePercent(p + q) == RewritePercent(p) + RewritePercent(q)
  {
    if rest[0] == '%' {
      assert rest == "%" + rest[1..];
      PercentStepConcat(run, rest[1..], q);
    } else {
      PlainStepConcat(run, rest, q);
    }
  }

  /** The rewrite works run by run: text ending in a non-digit is rewritten on its own. */
  lemma {:induction false} RewritePercentConcat(p: string, q: string)
    requires p == [] || !IsDigit(p[|p| - 1])
    ensures RewritePercent(p + q) == RewritePercent(p) + RewritePercent(q)
    decreases |p|
  {
    if p == [] {
      assert p + q == q;
    } else if IsDigit(p[0]) {
      var run, rest := LeadingRun(p);
      if rest[0] == '%' {
        RewritePercentConcat(rest[1..], q);
      } else {
        RewritePercentConcat(rest, q);
      }
      RunStepConcat(p, run, rest, q);
    } else {
      RewritePercentConcat(p[1..], q);
      PlainCharStepConcat(p, q);
    }
  }

  /**
   * A maximal digit run followed by `%` is replaced by `(run/100)`; the text
   * around it is rewritten on its own.
   */
  lemma {:induction false} RewritePercentRun(p: string, run: string, q: string)
    requires p == [] || !IsDigit(p[|p| - 1])
    requires run != [] && AllDigits(run)
    ensures RewritePercent(p + (run + ("%" + q))) == RewritePercent(p) + (Percentage(run) + RewritePercent(q))
  {
    RewritePercentConcat(p, run + ("%" + q));
    RewritePercentHeadPercent(run, q);
  }

  // ---- The result of `=` ----

  /** The text handed to the evaluator: sanitised, then percent-rewritten. */
  function Prepare(s: string): string
  {
    RewritePercent(Sanitize(s))
  }

  /**
   * The result text after `=` on expression `s`, where `eval` stands for the
   * evaluator and its number formatting (`None` when it throws).
   */
  function EqualResult(s: string, eval: string -> Option<string>): (r: string)
    ensures HasZeroDivisor(s) ==> r == ERROR_TEXT
    ensures eval(Prepare(s)) == None ==> r == ERROR_TEXT
    ensures r == ERROR_TEXT || (!HasZeroDivisor(s) && eval(Prepare(s)) == Some(r))
    ensures !HasZeroDivisor(s) && eval(Prepare(s)).Some? ==> r == eval(Prepare(s)).value
  {
    if HasZeroDivisor(s) then ERROR_TEXT
    else
      match eval(Prepare(s))
      case None => ERROR_TEXT
      case Some(v) => v
  }
}

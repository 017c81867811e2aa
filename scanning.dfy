/**
 * Character classes and the scans the calculator performs on its expression text:
 * the operator test, maximal digit runs, and the split of the text at operators.
 */
module Scanning {

  /** The four operator keys; `%` and `.` are not operators. */
  predicate IsOperator(c: char)
  {
    c == '+' || c == '-' || c == '*' || c == '/'
  }

  /** A decimal digit, the class `\d` of the regular expressions. */
  predicate IsDigit(c: char)
  {
    '0' <= c <= '9'
  }

  /** The last character of `s` (its one-character slice from the end) is an operator. */
  predicate EndsWithOperator(s: string)
  {
    |s| > 0 && IsOperator(s[|s| - 1])
  }

  predicate NoOperator(t: string)
  {
    forall i :: 0 <= i < |t| ==> !IsOperator(t[i])
  }

  predicate AllDigits(t: string)
  {
    forall i :: 0 <= i < |t| ==> IsDigit(t[i])
  }

  /** The longest prefix of `s` made only of digits. */
  function DigitRun(s: string): (run: string)
    ensures |run| <= |s| && run == s[..|run|] && AllDigits(run)
    ensures |run| == |s| || !IsDigit(s[|run|])
    ensures s != [] && IsDigit(s[0]) ==> run != []
  {
    if s != [] && IsDigit(s[0]) then [s[0]] + DigitRun(s[1..]) else []
  }

  /** A digit run followed by a non-digit (or by nothing) is exactly the run DigitRun finds. */
  lemma {:induction false} DigitRunOfConcat(run: string, w: string)
    requires AllDigits(run)
    requires w == [] || !IsDigit(w[0])
    ensures DigitRun(run + w) == run
  {
    if run != [] {
      assert (run + w)[1..] == run[1..] + w;
      DigitRunOfConcat(run[1..], w);
    }
  }

  /**
   * The pieces of `s` between operators, as splitting at any of the four operator
   * characters gives them: one more piece than there are operators, empty pieces
   * included ("3+" gives ["3", ""], "" gives [""]).
   */
  function Split(s: string): (parts: seq<string>)
    ensures |parts| >= 1
  {
    if s == [] then [[]]
    else
      var init := Split(s[..|s| - 1]);
      var c := s[|s| - 1];
      if IsOperator(c) then init + [[]]
      else init[..|init| - 1] + [init[|init| - 1] + [c]]
  }

  /** The operators of `s`, in order. */
  function Operators(s: string): (ops: string)
    ensures forall i :: 0 <= i < |ops| ==> IsOperator(ops[i])
  {
    if s == [] then []
    else if IsOperator(s[|s| - 1]) then Operators(s[..|s| - 1]) + [s[|s| - 1]]
    else Operators(s[..|s| - 1])
  }

  /** `parts[0] + ops[0] + parts[1] + ... + ops[n-1] + parts[n]`. */
  function Join(parts: seq<string>, ops: string): string
    requires |parts| == |ops| + 1
  {
    if |ops| == 0 then parts[0]
    else Join(parts[..|parts| - 1], ops[..|ops| - 1]) + [ops[|ops| - 1]] + parts[|parts| - 1]
  }

  /** The number being typed: the last piece of the split (the split's `pop()`). */
  function LastNumber(s: string): string
  {
    var parts := Split(s);
    parts[|parts| - 1]
  }

  /** No piece of the split holds an operator. */
  lemma {:induction false} SplitPiecesHaveNoOperator(s: string)
    ensures forall k :: 0 <= k < |Split(s)| ==> NoOperator(Split(s)[k])
  {
    if s != [] {
      SplitPiecesHaveNoOperator(s[..|s| - 1]);
    }
  }

  /** Extending the last piece by `c` extends the joined text by `c`. */
  lemma JoinExtendLast(p: seq<string>, o: string, c: char)
    requires |p| == |o| + 1
    ensures Join(p[..|p| - 1] + [p[|p| - 1] + [c]], o) == Join(p, o) + [c]
  {
    var q := p[..|p| - 1] + [p[|p| - 1] + [c]];
    if |o| > 0 {
      assert q[..|q| - 1] == p[..|p| - 1];
      assert q[|q| - 1] == p[|p| - 1] + [c];
    }
  }

  /** A new operator followed by a new, empty piece extends the joined text by the operator. */
  lemma JoinAppendOperator(p: seq<string>, o: string, c: char)
    requires |p| == |o| + 1
    ensures Join(p + [[]], o + [c]) == Join(p, o) + [c]
  {
    assert (p + [[]])[..|p|] == p;
    assert (o + [c])[..|o|] == o;
  }

  /** Splitting loses nothing: re-inserting the operators between the pieces gives `s` back. */
  lemma {:induction false} JoinSplit(s: string)
    ensures |Split(s)| == |Operators(s)| + 1
    ensures Join(Split(s), Operators(s)) == s
  {
    if s != [] {
      var init, c := s[..|s| - 1], s[|s| - 1];
      JoinSplit(init);
      assert s == init + [c];
      if IsOperator(c) {
        JoinAppendOperator(Split(init), Operators(init), c);
      } else {
        JoinExtendLast(Split(init), Operators(init), c);
      }
    }
  }

  /**
   * The last piece is the text after the last operator, or all of `s` when it has
   * no operator.
   */
  lemma {:induction false} LastNumberIsTrailingToken(s: string)
    ensures |LastNumber(s)| <= |s|
    ensures LastNumber(s) == s[|s| - |LastNumber(s)|..]
    ensures NoOperator(LastNumber(s))
    ensures |LastNumber(s)| == |s| || IsOperator(s[|s| - |LastNumber(s)| - 1])
  {
    if s != [] {
      var init, c := s[..|s| - 1], s[|s| - 1];
      LastNumberIsTrailingToken(init);
      var t := LastNumber(init);
      if !IsOperator(c) {
        assert LastNumber(s) == t + [c];
        assert s[|s| - |t| - 1..] == init[|init| - |t|..] + [c];
      }
    }
  }

  /** Appending a non-operator extends the last piece. */
  lemma SplitAppendNonOperator(s: string, c: char)
    requires !IsOperator(c)
    ensures Split(s + [c]) == Split(s)[..|Split(s)| - 1] + [Split(s)[|Split(s)| - 1] + [c]]
  {
    assert (s + [c])[..|s|] == s;
  }

  /** Appending an operator starts a new, empty piece. */
  lemma SplitAppendOperator(s: string, c: char)
    requires IsOperator(c)
    ensures Split(s + [c]) == Split(s) + [[]]
  {
    assert (s + [c])[..|s|] == s;
  }

  /** Extending the last piece by `u` and then by `c` extends it by `u + [c]`. */
  lemma ExtendLastTwice(p: seq<string>, u: string, c: char)
    requires |p| >= 1
    ensures var q := p[..|p| - 1] + [p[|p| - 1] + u];
      q[..|q| - 1] + [q[|q| - 1] + [c]] == p[..|p| - 1] + [p[|p| - 1] + (u + [c])]
  {
    var q := p[..|p| - 1] + [p[|p| - 1] + u];
    assert q[..|q| - 1] == p[..|p| - 1];
    assert q[|q| - 1] + [c] == p[|p| - 1] + (u + [c]);
  }

  lemma SplitTokenStep(s: string, u: string, c: char)
    requires !IsOperator(c)
    requires Split(s + u) == Split(s)[..|Split(s)| - 1] + [Split(s)[|Split(s)| - 1] + u]
    ensures Split(s + (u + [c])) == Split(s)[..|Split(s)| - 1] + [Split(s)[|Split(s)| - 1] + (u + [c])]
  {
    assert s + (u + [c]) == (s + u) + [c];
    SplitAppendNonOperator(s + u, c);
    ExtendLastTwice(Split(s), u, c);
  }

  /** Appending operator-free text extends the last piece by that text. */
  lemma {:induction false} SplitAppendToken(s: string, t: string)
    requires NoOperator(t)
    ensures Split(s + t) == Split(s)[..|Split(s)| - 1] + [Split(s)[|Split(s)| - 1] + t]
  {
    var p := Split(s);
    if t == [] {
      assert s + t == s;
      assert p[..|p| - 1] + [p[|p| - 1] + t] == p by {
        assert p[|p| - 1] + t == p[|p| - 1];
      }
    } else {
      var u, c := t[..|t| - 1], t[|t| - 1];
      assert t == u + [c];
      assert NoOperator(u) && !IsOperator(c);
      SplitAppendToken(s, u);
      SplitTokenStep(s, u, c);
    }
  }

  /** Appending operator-free text extends the number being typed by that text. */
  lemma LastNumberAppendToken(s: string, t: string)
    requires NoOperator(t)
    ensures LastNumber(s + t) == LastNumber(s) + t
  {
    SplitAppendToken(s, t);
  }
}

/**
 * How each key changes the expression text, as pure functions of the old text,
 * and the shape every text reachable from the empty start keeps.
 */
module InputRules {

  import opened Scanning

  /** The text the π key inserts: π with five fractional digits. */
  const PI_TEXT: string := "3.14159"

  /**
   * The expression after pressing `key`. The guards follow the button handler:
   * an operator on empty text is ignored, an operator after an operator replaces it,
   * a second `.` in the number being typed is ignored, `%` after `%` is ignored,
   * and any other key is appended.
   */
  function PressKey(s: string, key: char): (r: string)
    ensures r == s || r == s + [key] || (|r| == |s| > 0 && r[..|r| - 1] == s[..|s| - 1] && r[|r| - 1] == key)
  {
    if IsOperator(key) && s == [] then s
    else if IsOperator(key) && EndsWithOperator(s) then s[..|s| - 1] + [key]
    else if key == '.' && '.' in LastNumber(s) then s
    else if key == '%' && |s| > 0 && s[|s| - 1] == '%' then s
    else s + [key]
  }

  /** The expression after backspace: the last character removed, if there is one. */
  function DropLast(s: string): (r: string)
    ensures s == [] ==> r == []
    ensures s != [] ==> r + [s[|s| - 1]] == s
  {
    if s == [] then [] else s[..|s| - 1]
  }

  /** The expression after the π key: the digits of π appended at the start or after an operator. */
  function AppendPi(s: string): (r: string)
    ensures r == s || r == s + PI_TEXT
  {
    if s == [] || EndsWithOperator(s) then s + PI_TEXT else s
  }

  // ---- The guards, one by one ----

  lemma OperatorOnEmptyIgnored(key: char)
    requires IsOperator(key)
    ensures PressKey([], key) == []
  {
  }

  /** A second operator takes the place of the first: same length, new last character. */
  lemma OperatorReplacesOperator(s: string, key: char)
    requires IsOperator(key) && EndsWithOperator(s)
    ensures |PressKey(s, key)| == |s|
    ensures PressKey(s, key)[..|s| - 1] == s[..|s| - 1]
    ensures PressKey(s, key)[|s| - 1] == key
  {
  }

  /** `.` is ignored exactly when the number being typed already holds a `.`. */
  lemma DotIgnoredIffNumberHasDot(s: string)
    ensures PressKey(s, '.') == s <==> '.' in LastNumber(s)
    ensures '.' !in LastNumber(s) ==> PressKey(s, '.') == s + ['.']
  {
  }

  /** `%` is ignored exactly when the text already ends with `%`. */
  lemma PercentIgnoredIffEndsWithPercent(s: string)
    ensures PressKey(s, '%') == s <==> (|s| > 0 && s[|s| - 1] == '%')
  {
  }

  /** A key that passes every guard is appended verbatim. */
  lemma AcceptedKeyAppended(s: string, key: char)
    requires !(IsOperator(key) && (s == [] || EndsWithOperator(s)))
    requires !(key == '.' && '.' in LastNumber(s))
    requires !(key == '%' && |s| > 0 && s[|s| - 1] == '%')
    ensures PressKey(s, key) == s + [key]
  {
  }

  /** A digit passes every guard. */
  lemma DigitAppended(s: string, key: char)
    requires IsDigit(key)
    ensures PressKey(s, key) == s + [key]
  {
  }

  /** π is appended exactly at the start or after an operator; after a digit, `.` or `%` it is ignored. */
  lemma PiOnlyAfterOperator(s: string)
    ensures AppendPi(s) == s + PI_TEXT <==> (s == [] || EndsWithOperator(s))
    ensures AppendPi(s) == s <==> !(s == [] || EndsWithOperator(s))
  {
    assert |s + PI_TEXT| != |s|;
  }

  // ---- The shape of reachable texts ----

  predicate NoLeadingOperator(s: string)
  {
    s == [] || !IsOperator(s[0])
  }

  predicate NoAdjacentOperators(s: string)
  {
    forall i :: 0 <= i < |s| - 1 ==> !(IsOperator(s[i]) && IsOperator(s[i + 1]))
  }

  predicate NoDoublePercent(s: string)
  {
    forall i :: 0 <= i < |s| - 1 ==> !(s[i] == '%' && s[i + 1] == '%')
  }

  /** Every operator-delimited piece holds at most one `.`. */
  predicate OneDotPerNumber(s: string)
  {
    var parts := Split(s);
    forall k :: 0 <= k < |parts| ==> multiset(parts[k])['.'] <= 1
  }

  predicate WellFormed(s: string)
  {
    NoLeadingOperator(s) && NoAdjacentOperators(s) && NoDoublePercent(s) && OneDotPerNumber(s)
  }

  /** Joining two texts keeps the adjacency rules when the seam itself obeys them. */
  lemma ConcatKeepsAdjacency(a: string, b: string)
    requires NoAdjacentOperators(a) && NoAdjacentOperators(b)
    requires NoDoublePercent(a) && NoDoublePercent(b)
    requires a != [] && b != [] ==> !(IsOperator(a[|a| - 1]) && IsOperator(b[0]))
    requires a != [] && b != [] ==> !(a[|a| - 1] == '%' && b[0] == '%')
    ensures NoAdjacentOperators(a + b) && NoDoublePercent(a + b)
  {
    var t := a + b;
    forall i | 0 <= i < |t| - 1
      ensures !(IsOperator(t[i]) && IsOperator(t[i + 1])) && !(t[i] == '%' && t[i + 1] == '%')
    {
      if i < |a| - 1 {
        assert t[i] == a[i] && t[i + 1] == a[i + 1];
      } else if i == |a| - 1 {
        assert t[i] == a[|a| - 1] && t[i + 1] == b[0];
      } else {
        assert t[i] == b[i - |a|] && t[i + 1] == b[i - |a| + 1];
      }
    }
  }

  /** Appending operator-free text keeps one `.` per number when the last number gains none too many. */
  lemma AppendTokenKeepsDots(s: string, t: string)
    requires OneDotPerNumber(s) && NoOperator(t)
    requires multiset(LastNumber(s))['.'] + multiset(t)['.'] <= 1
    ensures OneDotPerNumber(s + t)
  {
    SplitAppendToken(s, t);
    var p, q := Split(s), Split(s + t);
    assert forall k :: 0 <= k < |p| - 1 ==> q[k] == p[k];
    assert multiset(q[|q| - 1]) == multiset(p[|p| - 1]) + multiset(t);
  }

  /** Appending an operator keeps one `.` per number: the new number is empty. */
  lemma AppendOperatorKeepsDots(s: string, c: char)
    requires OneDotPerNumber(s) && IsOperator(c)
    ensures OneDotPerNumber(s + [c])
  {
    SplitAppendOperator(s, c);
    var p, q := Split(s), Split(s + [c]);
    assert forall k :: 0 <= k < |p| ==> q[k] == p[k];
  }

  /** Appending a key that passed the guards keeps the text well formed. */
  lemma AppendKeepsWellFormed(s: string, c: char)
    requires WellFormed(s)
    requires IsOperator(c) ==> s != [] && !EndsWithOperator(s)
    requires c == '.' ==> '.' !in LastNumber(s)
    requires c == '%' ==> !(|s| > 0 && s[|s| - 1] == '%')
    ensures WellFormed(s + [c])
  {
    ConcatKeepsAdjacency(s, [c]);
    if IsOperator(c) {
      AppendOperatorKeepsDots(s, c);
    } else {
      assert NoOperator([c]);
      AppendTokenKeepsDots(s, [c]);
    }
    assert s != [] ==> (s + [c])[0] == s[0];
  }

  /** An operator replacing a trailing operator keeps the text well formed. */
  lemma ReplaceKeepsWellFormed(s: string, c: char)
    requires WellFormed(s)
    requires IsOperator(c) && EndsWithOperator(s)
    ensures WellFormed(s[..|s| - 1] + [c])
  {
    var init := s[..|s| - 1];
    assert s == init + [s[|s| - 1]];
    PrefixKeepsWellFormed(init, [s[|s| - 1]]);
    assert init != [] && !EndsWithOperator(init);
    AppendKeepsWellFormed(init, c);
  }

  /** Every prefix of a well-formed text is well formed. */
  lemma PrefixKeepsWellFormed(a: string, b: string)
    requires WellFormed(a + b)
    ensures WellFormed(a)
    decreases |b|
  {
    var t := a + b;
    assert forall i :: 0 <= i < |a| ==> t[i] == a[i];
    if b == [] {
      assert t == a;
    } else {
      var u, c := b[..|b| - 1], b[|b| - 1];
      assert t == (a + u) + [c];
      DropLastKeepsWellFormed(a + u, c);
      PrefixKeepsWellFormed(a, u);
    }
  }

  /** Dropping the last character keeps the text well formed. */
  lemma DropLastKeepsWellFormed(s: string, c: char)
    requires WellFormed(s + [c])
    ensures WellFormed(s)
  {
    var t := s + [c];
    assert forall i :: 0 <= i < |s| ==> t[i] == s[i];
    var p := Split(s);
    if IsOperator(c) {
      SplitAppendOperator(s, c);
      var q := Split(t);
      assert forall k :: 0 <= k < |p| ==> q[k] == p[k];
    } else {
      SplitAppendNonOperator(s, c);
      var q := Split(t);
      assert forall k :: 0 <= k < |p| - 1 ==> q[k] == p[k];
      assert multiset(q[|q| - 1]) == multiset(p[|p| - 1]) + multiset{c};
    }
  }

  lemma BackspaceKeepsWellFormed(s: string)
    requires WellFormed(s)
    ensures WellFormed(DropLast(s))
  {
    if s != [] {
      assert s == s[..|s| - 1] + [s[|s| - 1]];
      DropLastKeepsWellFormed(s[..|s| - 1], s[|s| - 1]);
    }
  }

  lemma PressKeepsWellFormed(s: string, key: char)
    requires WellFormed(s)
    ensures WellFormed(PressKey(s, key))
  {
    if IsOperator(key) && s == [] {
    } else if IsOperator(key) && EndsWithOperator(s) {
      ReplaceKeepsWellFormed(s, key);
    } else if key == '.' && '.' in LastNumber(s) {
    } else if key == '%' && |s| > 0 && s[|s| - 1] == '%' {
    } else {
      AppendKeepsWellFormed(s, key);
    }
  }

  /** Right after an operator, or on the empty text, the number being typed is empty. */
  lemma LastNumberAfterOperator(s: string)
    requires s == [] || EndsWithOperator(s)
    ensures LastNumber(s) == []
  {
    if s != [] {
      var init := s[..|s| - 1];
      assert s == init + [s[|s| - 1]];
      SplitAppendOperator(init, s[|s| - 1]);
    }
  }

  lemma AppendNumberKeepsShape(s: string, t: string)
    requires NoLeadingOperator(s) && NoAdjacentOperators(s) && NoDoublePercent(s)
    requires s == [] || EndsWithOperator(s)
    requires NoOperator(t) && NoDoublePercent(t)
    requires s != [] && t != [] ==> t[0] != '%'
    ensures NoLeadingOperator(s + t) && NoAdjacentOperators(s + t) && NoDoublePercent(s + t)
  {
    assert NoAdjacentOperators(t);
    ConcatKeepsAdjacency(s, t);
    assert s != [] ==> (s + t)[0] == s[0];
    assert s == [] && t != [] ==> (s + t)[0] == t[0];
  }

  /** A number with at most one `.` and no `%%`, typed right after an operator (or first), keeps the text well formed. */
  lemma AppendNumberKeepsWellFormed(s: string, t: string)
    requires WellFormed(s) && (s == [] || EndsWithOperator(s))
    requires NoOperator(t) && NoDoublePercent(t) && multiset(t)['.'] <= 1
    requires s != [] && t != [] ==> t[0] != '%'
    ensures WellFormed(s + t)
  {
    AppendNumberKeepsShape(s, t);
    LastNumberAfterOperator(s);
    AppendTokenKeepsDots(s, t);
  }

  lemma PiTextHasNoOperator()
    ensures NoOperator(PI_TEXT)
  {
  }

  lemma PiTextHasNoDoublePercent()
    ensures NoDoublePercent(PI_TEXT)
  {
  }

  /** The digits of π: one `.`, no operator, no `%`. */
  lemma PiTextShape()
    ensures NoOperator(PI_TEXT) && NoDoublePercent(PI_TEXT) && multiset(PI_TEXT)['.'] == 1
    ensures PI_TEXT[0] == '3'
  {
    PiTextHasNoOperator();
    PiTextHasNoDoublePercent();
    assert multiset(PI_TEXT) == multiset{'3', '.', '1', '4', '1', '5', '9'};
  }

  lemma AppendPiKeepsWellFormed(s: string)
    requires WellFormed(s)
    ensures WellFormed(AppendPi(s))
  {
    if s == [] || EndsWithOperator(s) {
      PiTextShape();
      AppendNumberKeepsWellFormed(s, PI_TEXT);
    }
  }

  // ---- Any sequence of key presses from the empty start ----

  /** One user action, as the buttons deliver them. */
  datatype Event = Button(key: char) | Clear | Backspace | Pi | Equal

  /** The expression after `e`; `=` leaves the expression as it is. */
  function Apply(s: string, e: Event): string
  {
    match e
    case Button(key) => PressKey(s, key)
    case Clear => []
    case Backspace => DropLast(s)
    case Pi => AppendPi(s)
    case Equal => s
  }

  /** The expression after `events`, starting from the empty expression. */
  function Replay(events: seq<Event>): string
  {
    if events == [] then [] else Apply(Replay(events[..|events| - 1]), events[|events| - 1])
  }

  /**
   * Whatever the actions, the expression never starts with an operator, never holds
   * two operators in a row or `%%`, and no number in it has two `.`.
   */
  lemma {:induction false} ReplayWellFormed(events: seq<Event>)
    ensures WellFormed(Replay(events))
  {
    if events != [] {
      ReplayWellFormed(events[..|events| - 1]);
      var s := Replay(events[..|events| - 1]);
      match events[|events| - 1]
      case Button(key) => PressKeepsWellFormed(s, key);
      case Clear =>
      case Backspace => BackspaceKeepsWellFormed(s);
      case Pi => AppendPiKeepsWellFormed(s);
      case Equal =>
    }
  }
}

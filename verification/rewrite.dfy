/**
  The notation normaliser: the three global substitutions that `safe_eval`
  applies before the allow-list check, in their fixed order.

  Each substitution is a scan from left to right: where the pattern matches
  at the head of the remaining text, the replacement is emitted and the
  whole match is skipped; elsewhere one character is copied. That is how a
  global substitution picks its leftmost, non-overlapping matches.
*/
module Rewrite {
  import opened Results
  import opened Lexical
  import opened Strings

  /** A match at the head of a string: the captured operand and the number of characters consumed. */
  datatype Match = Match(operand: seq<char>, len: nat)

  /** `s` starts with `m.operand`, then whitespace, then `terminator`, and that prefix is `m.len` long. */
  predicate Delimits(s: seq<char>, m: Match, terminator: char) {
    && |m.operand| < m.len <= |s|
    && s[..|m.operand|] == m.operand
    && AllSpace(s[|m.operand|..m.len - 1])
    && s[m.len - 1] == terminator
  }

  // ---------------------------------------------------------------------
  // Caret: every `^` becomes `**`
  // ---------------------------------------------------------------------

  function Caret(s: seq<char>): (r: seq<char>)
    ensures '^' !in r
    ensures '^' !in s ==> r == s
    decreases |s|
  {
    if |s| == 0 then []
    else
      assert s == [s[0]] + s[1..];
      (if s[0] == '^' then "**" else [s[0]]) + Caret(s[1..])
  }

  lemma {:induction false} CaretConcat(a: seq<char>, b: seq<char>)
    ensures Caret(a + b) == Caret(a) + Caret(b)
    decreases |a|
  {
    if |a| == 0 {
      assert a + b == b;
    } else {
      assert (a + b)[1..] == a[1..] + b;
      CaretConcat(a[1..], b);
    }
  }

  /** Each caret adds one character: `^` becomes the two characters `**`. */
  lemma {:induction false} CaretLength(s: seq<char>)
    ensures |Caret(s)| == |s| + multiset(s)['^']
    decreases |s|
  {
    if |s| > 0 {
      CaretLength(s[1..]);
      HeadTail(s);
      assert multiset(s) == multiset([s[0]]) + multiset(s[1..]);
    }
  }

  /** Each caret is replaced by `**` and the text around it is rewritten independently. */
  lemma CaretReplacesEach(a: seq<char>, b: seq<char>)
    ensures Caret(a + "^" + b) == Caret(a) + "**" + Caret(b)
  {
    CaretConcat(a, "^" + b);
    assert "^" + b == ['^'] + b;
    assert Caret("^" + b) == "**" + Caret(b);
    assert a + "^" + b == a + ("^" + b);
  }

  lemma {:induction false} CaretKeepsOffending(s: seq<char>)
    ensures Offending(Caret(s)) == Offending(s)
    decreases |s|
  {
    if |s| > 0 {
      var head := if s[0] == '^' then "**" else [s[0]];
      OffendingConcat(head, Caret(s[1..]));
      OffendingConcat([s[0]], s[1..]);
      assert s == [s[0]] + s[1..];
      CaretKeepsOffending(s[1..]);
    }
  }

  // ---------------------------------------------------------------------
  // Shared tail of both patterns: `\s*` and then a terminator character
  // ---------------------------------------------------------------------

  /** After an operand of length `g`, the pattern tail `\s*` then `terminator`. */
  function Terminated(s: seq<char>, g: nat, terminator: char): (m: Option<Match>)
    requires 0 < g <= |s|
    ensures m.Some? ==> m.value.operand == s[..g] && Delimits(s, m.value, terminator)
  {
    var w := Run(IsSpace, s[g..]);
    if g + w < |s| && s[g + w] == terminator then
      assert s[g..g + w] == s[g..][..w];
      Some(Match(s[..g], g + w + 1))
    else
      None
  }

  /** The tail is decided before it reaches a character that is neither whitespace nor the terminator. */
  lemma TerminatedLocal(a: seq<char>, b: seq<char>, g: nat, terminator: char)
    requires 0 < g <= |a|
    requires |b| == 0 || (!IsSpace(b[0]) && b[0] != terminator)
    ensures Terminated(a + b, g, terminator) == Terminated(a, g, terminator)
  {
    assert (a + b)[g..] == a[g..] + b;
    RunConcat(IsSpace, a[g..], b);
    assert (a + b)[..g] == a[..g];
  }

  /** A match of the tail is found whenever the operand is followed by whitespace and the terminator. */
  lemma TerminatedFinds(n: seq<char>, w: seq<char>, terminator: char, t: seq<char>)
    requires 0 < |n| && AllSpace(w) && !IsSpace(terminator)
    ensures Terminated(n + w + [terminator] + t, |n|, terminator) == Some(Match(n, |n| + |w| + 1))
  {
    var s := n + w + [terminator] + t;
    assert s[|n|..] == w + ([terminator] + t);
    RunAll(IsSpace, w);
    RunConcat(IsSpace, w, [terminator] + t);
    assert s[..|n|] == n;
    assert s[|n| + |w|] == terminator;
  }

  // ---------------------------------------------------------------------
  // Percent: `(\d+(\.\d+)?)\s*%` becomes `(<number>/100)`
  // ---------------------------------------------------------------------

  function PercentAt(s: seq<char>): (m: Option<Match>)
    ensures m.Some? ==> IsNumber(m.value.operand) && Delimits(s, m.value, '%')
    ensures (|s| == 0 || !IsDigit(s[0])) ==> m.None?
  {
    var n := NumberLen(s);
    if n == 0 then None else Terminated(s, n, '%')
  }

  function Percent(s: seq<char>): (r: seq<char>)
    ensures '%' !in s ==> r == s
    decreases |s|
  {
    if |s| == 0 then []
    else match PercentAt(s)
      case Some(m) => "(" + m.operand + "/100)" + Percent(s[m.len..])
      case None => [s[0]] + Percent(s[1..])
  }

  /** No percent match runs into a character that cannot belong to one. */
  predicate PercentBarrier(b: seq<char>) {
    |b| == 0 || !(IsDigit(b[0]) || b[0] == '.' || IsSpace(b[0]) || b[0] == '%')
  }

  lemma PercentAtLocal(a: seq<char>, b: seq<char>)
    requires PercentBarrier(b)
    ensures PercentAt(a + b) == PercentAt(a)
  {
    NumberLenLocal(a, b);
    var n := NumberLen(a);
    if 0 < n {
      TerminatedLocal(a, b, n, '%');
    }
  }

  /** A number, optional whitespace and `%` at the head of the text is rewritten to `(<number>/100)`. */
  lemma PercentOfNumber(n: seq<char>, w: seq<char>, t: seq<char>)
    requires IsNumber(n) && AllSpace(w)
    ensures Percent(n + w + "%" + t) == "(" + n + "/100)" + Percent(t)
  {
    var s := n + w + "%" + t;
    assert s == n + (w + "%" + t);
    NumberLenOfNumber(n, w + "%" + t);
    TerminatedFinds(n, w, '%', t);
    assert s[|n| + |w| + 1..] == t;
  }

  /** The percent rewrite of a concatenation splits when the right part starts at a barrier. */
  lemma {:induction false} PercentSplit(a: seq<char>, b: seq<char>)
    requires PercentBarrier(b)
    ensures Percent(a + b) == Percent(a) + Percent(b)
    decreases |a|
  {
    if |a| == 0 {
      EmptyConcat(a, b);
      EmptyConcat(Percent(a), Percent(b));
    } else {
      PercentAtLocal(a, b);
      match PercentAt(a)
      case Some(m) =>
        DropConcat(a, b, m.len);
        PercentSplit(a[m.len..], b);
        Assoc("(" + m.operand + "/100)", Percent(a[m.len..]), Percent(b));
      case None =>
        DropConcat(a, b, 1);
        PercentSplit(a[1..], b);
        Assoc([a[0]], Percent(a[1..]), Percent(b));
    }
  }

  /** Whitespace followed by an allowed terminator holds no refused character. */
  lemma TailAllowed(w: seq<char>, terminator: char)
    requires AllSpace(w) && Allowed(terminator)
    ensures Offending(w + [terminator]) == []
  {
    assert forall i | 0 <= i < |w| :: (w + [terminator])[i] == w[i];
  }

  /** Removing a part with no refused character does not change the refused characters. */
  lemma OffendingAroundAllowed(a: seq<char>, b: seq<char>, c: seq<char>)
    requires Offending(b) == []
    ensures Offending(a + b + c) == Offending(a) + Offending(c)
  {
    OffendingConcat(a + b, c);
    OffendingConcat(a, b);
  }

  /** The characters a rewrite deletes from a match are allowed, so the refused ones are exactly the operand's. */
  lemma OffendingOfMatch(s: seq<char>, m: Match, terminator: char)
    requires Delimits(s, m, terminator) && Allowed(terminator)
    ensures Offending(s) == Offending(m.operand) + Offending(s[m.len..])
  {
    var g := |m.operand|;
    SplitAt(s, g, m.len - 1);
    TailAllowed(s[g..m.len - 1], terminator);
    OffendingAroundAllowed(m.operand, s[g..m.len - 1] + [terminator], s[m.len..]);
  }

  /** Replacing a match by allowed text around its operand keeps the refused characters. */
  lemma OffendingOfReplacement(pre: seq<char>, op: seq<char>, post: seq<char>, rest: seq<char>)
    requires Offending(pre) == [] && Offending(post) == []
    ensures Offending(pre + op + post + rest) == Offending(op) + Offending(rest)
  {
    OffendingAroundAllowed(pre + op, post, rest);
    OffendingConcat(pre, op);
    EmptyConcat(Offending(pre), Offending(op));
  }

  /** One step of a rewrite that replaces a match keeps the refused characters, given that the rest does. */
  lemma ReplacedMatchKeepsOffending(s: seq<char>, m: Match, terminator: char, pre: seq<char>, post: seq<char>, x: seq<char>)
    requires Delimits(s, m, terminator) && Allowed(terminator)
    requires Offending(pre) == [] && Offending(post) == []
    requires Offending(x) == Offending(s[m.len..])
    ensures Offending(pre + m.operand + post + x) == Offending(s)
  {
    OffendingOfMatch(s, m, terminator);
    OffendingOfReplacement(pre, m.operand, post, x);
  }

  /** One step of a rewrite that copies a character keeps the refused characters, given that the rest does. */
  lemma CopiedHeadKeepsOffending(s: seq<char>, x: seq<char>)
    requires 0 < |s| && Offending(x) == Offending(s[1..])
    ensures Offending([s[0]] + x) == Offending(s)
  {
    OffendingConcat([s[0]], x);
    OffendingConcat([s[0]], s[1..]);
    HeadTail(s);
  }

  /** The fixed text of the replacements is allowed throughout. */
  lemma ReplacementTextAllowed()
    ensures Offending("(") == [] && Offending("/100)") == []
    ensures Offending("factorial(") == [] && Offending(")") == []
  {
    var f := "factorial(";
    assert forall i | 0 <= i < |f| :: Allowed(f[i]);
    var p := "/100)";
    assert forall i | 0 <= i < |p| :: Allowed(p[i]);
  }

  lemma {:induction false} PercentKeepsOffending(s: seq<char>)
    ensures Offending(Percent(s)) == Offending(s)
    decreases |s|
  {
    if |s| > 0 {
      match PercentAt(s)
      case Some(m) =>
        PercentKeepsOffending(s[m.len..]);
        ReplacementTextAllowed();
        ReplacedMatchKeepsOffending(s, m, '%', "(", "/100)", Percent(s[m.len..]));
      case None =>
        PercentKeepsOffending(s[1..]);
        CopiedHeadKeepsOffending(s, Percent(s[1..]));
    }
  }

  /** The percent rewrite introduces no character besides those of `(/100)`. */
  lemma {:induction false} PercentKeepsAbsent(s: seq<char>, c: char)
    requires c !in s && c !in "(/100)"
    ensures c !in Percent(s)
    decreases |s|
  {
    if |s| > 0 {
      match PercentAt(s)
      case Some(m) =>
        NotInDrop(s, m.len, c);
        PercentKeepsAbsent(s[m.len..], c);
        assert m.operand == s[..|m.operand|];
      case None =>
        NotInDrop(s, 1, c);
        PercentKeepsAbsent(s[1..], c);
    }
  }

  // ---------------------------------------------------------------------
  // Factorial: `(\([^()]+\)|\d+(\.\d+)?)\s*!` becomes `factorial(<operand>)`
  // ---------------------------------------------------------------------

  /** The language of `\([^()]+\)`: one pair of parentheses around non-empty, parenthesis-free text. */
  predicate IsGroup(t: seq<char>) {
    3 <= |t| && t[0] == '(' && t[|t| - 1] == ')' && NoParens(t[1..|t| - 1])
  }

  /**
    The operand alternatives of the factorial pattern at the head of `s`.
    The group alternative is tried first; it can only start at `(`, where
    the number alternative cannot, so at most one applies.
  */
  function OperandLen(s: seq<char>): (g: nat)
    ensures g <= |s|
    ensures 0 < g ==> IsGroup(s[..g]) || IsNumber(s[..g])
    ensures 0 < |s| && IsDigit(s[0]) ==> 0 < g
  {
    if 0 < |s| && s[0] == '(' then
      var k := Run(NotParen, s[1..]);
      if 0 < k && 1 + k < |s| && s[1 + k] == ')' then
        assert s[..k + 2][1..k + 1] == s[1..][..k];
        k + 2
      else
        0
    else
      NumberLen(s)
  }

  function FactorialAt(s: seq<char>): (m: Option<Match>)
    ensures m.Some? ==> (IsGroup(m.value.operand) || IsNumber(m.value.operand)) && Delimits(s, m.value, '!')
  {
    var g := OperandLen(s);
    if g == 0 then None else Terminated(s, g, '!')
  }

  function Factorial(s: seq<char>): (r: seq<char>)
    ensures '!' !in s ==> r == s
    decreases |s|
  {
    if |s| == 0 then []
    else match FactorialAt(s)
      case Some(m) => "factorial(" + m.operand + ")" + Factorial(s[m.len..])
      case None => [s[0]] + Factorial(s[1..])
  }

  /**
    What may follow `a` without changing any factorial match that starts in
    it: nothing, an opening parenthesis, or a closing one when `a` opens no
    group.
  */
  predicate FactorialBarrier(a: seq<char>, b: seq<char>) {
    |b| == 0 || b[0] == '(' || (b[0] == ')' && '(' !in a)
  }

  lemma OperandLenLocal(a: seq<char>, b: seq<char>)
    requires 0 < |a| && FactorialBarrier(a, b)
    ensures OperandLen(a + b) == OperandLen(a)
  {
    if a[0] == '(' {
      assert (a + b)[1..] == a[1..] + b;
      RunConcat(NotParen, a[1..], b);
    } else {
      NumberLenLocal(a, b);
    }
  }

  lemma FactorialAtLocal(a: seq<char>, b: seq<char>)
    requires 0 < |a| && FactorialBarrier(a, b)
    ensures FactorialAt(a + b) == FactorialAt(a)
  {
    OperandLenLocal(a, b);
    var g := OperandLen(a);
    if 0 < g {
      TerminatedLocal(a, b, g, '!');
    }
  }

  /** The factorial rewrite of a concatenation splits at a barrier. */
  lemma {:induction false} FactorialSplit(a: seq<char>, b: seq<char>)
    requires FactorialBarrier(a, b)
    ensures Factorial(a + b) == Factorial(a) + Factorial(b)
    decreases |a|
  {
    if |a| == 0 {
      EmptyConcat(a, b);
      EmptyConcat(Factorial(a), Factorial(b));
    } else {
      FactorialAtLocal(a, b);
      match FactorialAt(a)
      case Some(m) =>
        DropConcat(a, b, m.len);
        if '(' !in a {
          NotInDrop(a, m.len, '(');
        }
        FactorialSplit(a[m.len..], b);
        Assoc("factorial(" + m.operand + ")", Factorial(a[m.len..]), Factorial(b));
      case None =>
        DropConcat(a, b, 1);
        if '(' !in a {
          NotInDrop(a, 1, '(');
        }
        FactorialSplit(a[1..], b);
        Assoc([a[0]], Factorial(a[1..]), Factorial(b));
    }
  }

  /** A number followed by whitespace and the terminator is matched at the head of the text. */
  lemma FactorialAtNumber(n: seq<char>, w: seq<char>, t: seq<char>)
    requires IsNumber(n) && AllSpace(w)
    ensures FactorialAt(n + w + "!" + t) == Some(Match(n, |n| + |w| + 1))
  {
    var s := n + w + "!" + t;
    assert s == n + (w + "!" + t);
    NumberLenOfNumber(n, w + "!" + t);
    assert s[0] == n[0];
    TerminatedFinds(n, w, '!', t);
  }

  /** `(x)` with non-empty, parenthesis-free `x` is a group operand wherever it starts the text. */
  lemma GroupOperandLen(x: seq<char>, r: seq<char>)
    requires 0 < |x| && NoParens(x)
    ensures OperandLen("(" + x + ")" + r) == |x| + 2
  {
    var s := "(" + x + ")" + r;
    assert s[1..] == x + (")" + r);
    RunAll(NotParen, x);
    RunConcat(NotParen, x, ")" + r);
    assert s[1 + |x|] == ')';
  }

  lemma FactorialAtGroup(x: seq<char>, w: seq<char>, t: seq<char>)
    requires 0 < |x| && NoParens(x) && AllSpace(w)
    ensures FactorialAt("(" + x + ")" + w + "!" + t) == Some(Match("(" + x + ")", |x| + |w| + 3))
  {
    var n := "(" + x + ")";
    Assoc(n, w, "!");
    Assoc(n, w + "!", t);
    GroupOperandLen(x, w + "!" + t);
    TerminatedFinds(n, w, '!', t);
  }

  /** A number, optional whitespace and `!` at the head of the text is rewritten to `factorial(<number>)`. */
  lemma FactorialOfNumber(n: seq<char>, w: seq<char>, t: seq<char>)
    requires IsNumber(n) && AllSpace(w)
    ensures Factorial(n + w + "!" + t) == "factorial(" + n + ")" + Factorial(t)
  {
    FactorialAtNumber(n, w, t);
    DropConcat(n + w + "!", t, |n| + |w| + 1);
  }

  /**
    A parenthesised, parenthesis-free operand followed by optional
    whitespace and `!` is rewritten to `factorial((<operand>))`.
  */
  lemma FactorialOfGroup(x: seq<char>, w: seq<char>, t: seq<char>)
    requires 0 < |x| && NoParens(x) && AllSpace(w)
    ensures Factorial("(" + x + ")" + w + "!" + t) == "factorial((" + x + "))" + Factorial(t)
  {
    FactorialAtGroup(x, w, t);
    DropConcat("(" + x + ")" + w + "!", t, |x| + |w| + 3);
    DoubleWrap(x);
  }

  lemma DoubleWrap(x: seq<char>)
    ensures "factorial(" + ("(" + x + ")") + ")" == "factorial((" + x + "))"
  {
  }

  /** Where no match starts, the factorial rewrite copies one character. */
  lemma FactorialCopies(s: seq<char>)
    requires 0 < |s| && FactorialAt(s) == None
    ensures Factorial(s) == [s[0]] + Factorial(s[1..])
  {
  }

  /** Text that opens two parentheses in a row never starts a factorial match. */
  lemma DoubleOpenNoMatch(r: seq<char>)
    ensures FactorialAt("(" + ("(" + r)) == None
  {
    var s := "(" + ("(" + r);
    assert s[1..][0] == '(';
  }

  /** A group followed by a closing parenthesis instead of `!` is no factorial match. */
  lemma GroupThenCloseNoMatch(x: seq<char>, r: seq<char>)
    requires NoParens(x)
    ensures FactorialAt("(" + (x + (")" + (")" + r)))) == None
  {
    var s := "(" + (x + (")" + (")" + r)));
    if 0 < |x| {
      Assoc("(", x, ")" + (")" + r));
      Assoc("(" + x, ")", ")" + r);
      GroupOperandLen(x, ")" + r);
      assert s[|x| + 2] == ')';
    } else {
      assert s[1] == ')';
    }
  }

  lemma ClosingTailUnchanged()
    ensures Factorial("))!") == "))!"
  {
    assert "))!"[1..] == ")!";
    assert ")!"[1..] == "!";
    assert "!"[1..] == [];
  }

  lemma NestedShape(x: seq<char>)
    ensures "((" + x + "))!" == "(" + ("(" + (x + "))!"))
    ensures x + "))!" == x + (")" + (")" + "!"))
  {
  }

  /**
    An operand wrapped in two pairs of parentheses is not a factorial
    operand: the text is left as it is, for the evaluator to reject.
  */
  lemma FactorialNestedUnchanged(x: seq<char>)
    requires NoParens(x) && '!' !in x
    ensures Factorial("((" + x + "))!") == "((" + x + "))!"
  {
    var s2 := x + "))!";
    assert '(' !in x;
    FactorialSplit(x, "))!");
    ClosingTailUnchanged();
    assert Factorial(s2) == s2;
    NestedShape(x);
    GroupThenCloseNoMatch(x, "!");
    FactorialCopies("(" + s2);
    assert ("(" + s2)[1..] == s2;
    DoubleOpenNoMatch(s2);
    FactorialCopies("(" + ("(" + s2));
    assert ("(" + ("(" + s2))[1..] == "(" + s2;
  }

  lemma {:induction false} FactorialKeepsOffending(s: seq<char>)
    ensures Offending(Factorial(s)) == Offending(s)
    decreases |s|
  {
    if |s| > 0 {
      match FactorialAt(s)
      case Some(m) =>
        FactorialKeepsOffending(s[m.len..]);
        ReplacementTextAllowed();
        ReplacedMatchKeepsOffending(s, m, '!', "factorial(", ")", Factorial(s[m.len..]));
      case None =>
        FactorialKeepsOffending(s[1..]);
        CopiedHeadKeepsOffending(s, Factorial(s[1..]));
    }
  }

  /** The factorial rewrite introduces no character besides those of `factorial()`. */
  lemma {:induction false} FactorialKeepsAbsent(s: seq<char>, c: char)
    requires c !in s && c !in "factorial()"
    ensures c !in Factorial(s)
    decreases |s|
  {
    if |s| > 0 {
      match FactorialAt(s)
      case Some(m) =>
        NotInDrop(s, m.len, c);
        FactorialKeepsAbsent(s[m.len..], c);
        assert m.operand == s[..|m.operand|];
      case None =>
        NotInDrop(s, 1, c);
        FactorialKeepsAbsent(s[1..], c);
    }
  }

  // ---------------------------------------------------------------------
  // The normaliser: caret, then percent, then factorial
  // ---------------------------------------------------------------------

  /** No caret survives normalisation: the later rewrites only add characters of `factorial(/100)`. */
  lemma NoCaretAfterRewrites(s: seq<char>)
    ensures '^' !in Factorial(Percent(Caret(s)))
  {
    PercentKeepsAbsent(Caret(s), '^');
    FactorialKeepsAbsent(Percent(Caret(s)), '^');
  }

  function Normalize(s: seq<char>): (r: seq<char>)
    ensures '^' !in r
    ensures Offending(r) == Offending(s)
  {
    CaretKeepsOffending(s);
    PercentKeepsOffending(Caret(s));
    FactorialKeepsOffending(Percent(Caret(s)));
    NoCaretAfterRewrites(s);
    Factorial(Percent(Caret(s)))
  }

  /** No rewrite reaches across an opening parenthesis. */
  lemma NormalizeSplit(a: seq<char>, b: seq<char>)
    requires |b| == 0 || b[0] == '('
    ensures Normalize(a + b) == Normalize(a) + Normalize(b)
  {
    CaretConcat(a, b);
    var cb := Caret(b);
    if 0 < |b| {
      HeadTail(b);
      CaretConcat([b[0]], b[1..]);
      assert cb[0] == '(';
      assert PercentAt(cb) == None;
      assert Percent(cb)[0] == '(';
    }
    PercentSplit(Caret(a), cb);
    FactorialSplit(Percent(Caret(a)), Percent(cb));
  }

  /** A number holds digits and at most one dot, so no character any rewrite looks for. */
  lemma NumberHasNoMarks(n: seq<char>)
    requires IsNumber(n)
    ensures '^' !in n && '%' !in n && '!' !in n
  {
    if !(0 < |n| && AllDigits(n)) {
      var k :| 0 < k < |n| - 1 && n[k] == '.' && AllDigits(n[..k]) && AllDigits(n[k + 1..]);
      assert forall i | 0 <= i < |n| :: IsDigit(n[i]) || n[i] == '.' by {
        forall i | 0 <= i < |n|
          ensures IsDigit(n[i]) || n[i] == '.'
        {
          if i < k {
            assert n[i] == n[..k][i];
          } else if k < i {
            assert n[i] == n[k + 1..][i - k - 1];
          }
        }
      }
    }
  }

  /** A whole entry `<number>!` normalises to `factorial(<number>)`. */
  lemma NormalizeFactorialOfNumber(n: seq<char>)
    requires IsNumber(n)
    ensures Normalize(n + "!") == "factorial(" + n + ")"
  {
    NumberHasNoMarks(n);
    var s := n + "!";
    assert '^' !in s && '%' !in s;
    assert s == n + "" + "!" + "";
    FactorialOfNumber(n, "", "");
  }

  lemma PercentOfWholeNumber(n: seq<char>)
    requires IsNumber(n)
    ensures Percent(n + "%") == "(" + n + "/100)"
  {
    assert n + "%" == n + "" + "%" + "";
    PercentOfNumber(n, "", "");
  }

  /** A whole entry `<number>%` normalises to `(<number>/100)`. */
  lemma NormalizePercentOfNumber(n: seq<char>)
    requires IsNumber(n)
    ensures Normalize(n + "%") == "(" + n + "/100)"
  {
    NumberHasNoMarks(n);
    NotInConcat(n, "%", '^');
    PercentOfWholeNumber(n);
    NotInConcat("(", n, '!');
    NotInConcat("(" + n, "/100)", '!');
  }

  /** `a^b` normalises to `a**b` when neither side holds anything else to rewrite. */
  lemma NormalizePower(a: seq<char>, b: seq<char>)
    requires '^' !in a && '^' !in b
    requires '%' !in a && '%' !in b && '!' !in a && '!' !in b
    ensures Normalize(a + "^" + b) == a + "**" + b
  {
    CaretReplacesEach(a, b);
    var r := a + "**" + b;
    assert '%' !in r && '!' !in r;
  }
}

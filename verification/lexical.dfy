/**
  Character classes and the scanning primitives the three notation rewrites
  and the allow-list are built from.
*/
module Lexical {
  import opened Strings

  /** The regex class `\d`, restricted to the ASCII digits. */
  predicate IsDigit(c: char) {
    '0' <= c <= '9'
  }

  /** The ranges `A-Z` and `a-z` of the allow-list. */
  predicate IsLetter(c: char) {
    'A' <= c <= 'Z' || 'a' <= c <= 'z'
  }

  /**
    The regex class `\s` on a str pattern: exactly the characters that
    Python's `str.isspace` accepts.
  */
  predicate IsSpace(c: char) {
    || '\t' <= c <= '\r'
    || '\U{1C}' <= c <= ' '
    || c == '\U{85}' || c == '\U{A0}' || c == '\U{1680}'
    || '\U{2000}' <= c <= '\U{200A}'
    || c == '\U{2028}' || c == '\U{2029}' || c == '\U{202F}'
    || c == '\U{205F}' || c == '\U{3000}'
  }

  /** The regex class `[^()]`. */
  predicate NotParen(c: char) {
    c != '(' && c != ')'
  }

  // The allow-list of the evaluator: ASCII digits and letters, the
  // characters . + - * / ^ % ( ) , ! _ and whitespace.
  predicate Allowed(c: char) {
    || IsDigit(c) || IsLetter(c) || IsSpace(c)
    || c == '.' || c == '+' || c == '-' || c == '*' || c == '/' || c == '^'
    || c == '%' || c == '(' || c == ')' || c == ',' || c == '!' || c == '_'
  }

  predicate AllDigits(s: seq<char>) {
    forall i | 0 <= i < |s| :: IsDigit(s[i])
  }

  predicate AllSpace(s: seq<char>) {
    forall i | 0 <= i < |s| :: IsSpace(s[i])
  }

  predicate NoParens(s: seq<char>) {
    forall i | 0 <= i < |s| :: NotParen(s[i])
  }

  /** The language of the sub-pattern `\d+(\.\d+)?`. */
  predicate IsNumber(t: seq<char>) {
    || (0 < |t| && AllDigits(t))
    || exists k | 0 < k < |t| - 1 :: t[k] == '.' && AllDigits(t[..k]) && AllDigits(t[k + 1..])
  }

  /**
    The greedy repetition `p*` at the head of `s`: the length of the longest
    prefix whose characters all satisfy `p`.
  */
  function Run(p: char -> bool, s: seq<char>): (n: nat)
    ensures n <= |s|
    ensures forall i | 0 <= i < n :: p(s[i])
    ensures n < |s| ==> !p(s[n])
    decreases |s|
  {
    if |s| == 0 || !p(s[0]) then 0 else 1 + Run(p, s[1..])
  }

  /** A run over a string that satisfies `p` throughout covers all of it. */
  lemma RunAll(p: char -> bool, s: seq<char>)
    requires forall i | 0 <= i < |s| :: p(s[i])
    ensures Run(p, s) == |s|
  {
  }

  /** A run never reaches past a character that stops it. */
  lemma RunConcat(p: char -> bool, a: seq<char>, b: seq<char>)
    requires |b| == 0 || !p(b[0])
    ensures Run(p, a + b) == Run(p, a)
  {
    assert forall i | 0 <= i < |a| :: (a + b)[i] == a[i];
    assert 0 < |b| ==> (a + b)[|a|] == b[0];
  }

  /**
    Greedy matching of `\d+(\.\d+)?` at the head of `s`: the length of the
    number that starts there, 0 when `s` does not start with a digit.
    Backtracking cannot produce any other length for the patterns that use
    it, because every match continues with a character that is neither a
    digit nor a dot.
  */
  function NumberLen(s: seq<char>): (n: nat)
    ensures n <= |s|
    ensures 0 < n <==> 0 < |s| && IsDigit(s[0])
    ensures n < |s| ==> !IsDigit(s[n])
    ensures 0 < n ==> IsNumber(s[..n])
  {
    var d := Run(IsDigit, s);
    if d == 0 then 0
    else if d + 1 < |s| && s[d] == '.' && IsDigit(s[d + 1]) then
      var f := Run(IsDigit, s[d + 1..]);
      var t := s[..d + 1 + f];
      assert t[..d] == s[..d] && t[d + 1..] == s[d + 1..][..f];
      assert 0 < d < |t| - 1 && t[d] == '.';
      d + 1 + f
    else
      d
  }

  /** A well-formed number followed by a non-digit, non-dot character is matched whole. */
  lemma NumberLenOfNumber(n: seq<char>, b: seq<char>)
    requires IsNumber(n)
    requires |b| == 0 || (!IsDigit(b[0]) && b[0] != '.')
    ensures NumberLen(n + b) == |n|
  {
    NumberLenLocal(n, b);
    if 0 < |n| && AllDigits(n) {
      RunAll(IsDigit, n);
    } else {
      var k :| 0 < k < |n| - 1 && n[k] == '.' && AllDigits(n[..k]) && AllDigits(n[k + 1..]);
      NumberLenOfFraction(n, k);
    }
  }

  /** A number with a fractional part is matched whole. */
  lemma NumberLenOfFraction(n: seq<char>, k: nat)
    requires 0 < k < |n| - 1 && n[k] == '.' && AllDigits(n[..k]) && AllDigits(n[k + 1..])
    ensures NumberLen(n) == |n|
  {
    RunAll(IsDigit, n[..k]);
    RunConcat(IsDigit, n[..k], n[k..]);
    assert n[..k] + n[k..] == n;
    RunAll(IsDigit, n[k + 1..]);
    assert IsDigit(n[k + 1..][0]);
  }

  /** The number at the head of `a` is the same when `a` is followed by a character that cannot extend it. */
  lemma NumberLenLocal(a: seq<char>, b: seq<char>)
    requires |b| == 0 || (!IsDigit(b[0]) && b[0] != '.')
    ensures NumberLen(a + b) == NumberLen(a)
  {
    RunConcat(IsDigit, a, b);
    var d := Run(IsDigit, a);
    if d + 1 < |a| {
      DropConcat(a, b, d + 1);
      RunConcat(IsDigit, a[d + 1..], b);
      assert (a + b)[d] == a[d] && (a + b)[d + 1] == a[d + 1];
    } else if d + 1 == |a| {
      assert (a + b)[d] == a[d];
      assert 0 < |b| ==> (a + b)[d + 1] == b[0];
    } else {
      assert 0 < |b| ==> (a + b)[d] == b[0];
    }
  }

  /**
    The characters of `s` that the allow-list refuses, in order: the
    evidence the allow-list search would find.
  */
  function Offending(s: seq<char>): (r: seq<char>)
    ensures |r| <= |s|
    ensures r == [] <==> forall i | 0 <= i < |s| :: Allowed(s[i])
    decreases |s|
  {
    if |s| == 0 then []
    else (if Allowed(s[0]) then [] else [s[0]]) + Offending(s[1..])
  }

  lemma {:induction false} OffendingConcat(a: seq<char>, b: seq<char>)
    ensures Offending(a + b) == Offending(a) + Offending(b)
    decreases |a|
  {
    if |a| == 0 {
      assert a + b == b;
    } else {
      assert (a + b)[1..] == a[1..] + b;
      OffendingConcat(a[1..], b);
    }
  }
}

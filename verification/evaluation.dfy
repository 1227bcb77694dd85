/**
  The evaluation side of the calculator: the trig mode, the table of names
  the evaluator may see, the integer factorial guard, and `safe_eval` up to
  the point where the host language's evaluator takes over.

  The evaluator itself is a general-purpose expression evaluator of the
  host language and is not modelled: it is a parameter of type `Evaluator`,
  a function from the normalised text, the name table and the trig mode to
  the float value of the result, or `None` when evaluating or converting
  the result to a float raises.
*/
module Evaluation {
  import opened Results
  import opened Lexical
  import opened Rewrite

  /** The angle unit of the trig functions. */
  datatype Mode = Deg | Rad

  /** The mode the program starts in. */
  const DefaultMode: Mode := Deg

  function Toggled(m: Mode): (r: Mode)
    ensures r != m
  {
    if m == Deg then Rad else Deg
  }

  /** The errors the evaluation path raises. */
  datatype EvalError =
    | InvalidCharacter   // the allow-list check refused the normalised text
    | DomainError        // the factorial guard refused its argument
    | EvaluatorError     // anything the evaluator or the float conversion raises

  type Evaluator = (seq<char>, NameTable, Mode) -> Option<real>

  // ---------------------------------------------------------------------
  // The name table
  // ---------------------------------------------------------------------

  datatype Trig = Sin | Cos | Tan | Asin | Acos | Atan

  datatype MathFn = Sqrt | Log | Log10 | Exp | Pow | Abs | Factorial

  datatype MathConst = Pi | E

  /**
    What a name is bound to. A mode-aware wrapper reads the current mode
    each time it is called, so two wrappers around the same function are
    interchangeable whatever the mode was when they were built.
  */
  datatype Binding = ModeAware(trig: Trig) | Function(fn: MathFn) | Constant(c: MathConst)

  type NameTable = map<string, Binding>

  /** The six entries the mode toggle rebuilds. */
  const TrigBindings: NameTable := map[
    "sin" := ModeAware(Sin), "cos" := ModeAware(Cos), "tan" := ModeAware(Tan),
    "asin" := ModeAware(Asin), "acos" := ModeAware(Acos), "atan" := ModeAware(Atan)
  ]

  /** The names the evaluator may see, and nothing else. */
  const NameKeys: set<string> := {
    "sin", "cos", "tan", "asin", "acos", "atan", "sqrt", "log", "ln",
    "log10", "exp", "pow", "abs", "factorial", "fact", "pi", "e"
  }

  function SafeNames(): (t: NameTable)
    ensures t.Keys == NameKeys
    ensures forall k | k in TrigBindings :: k in t && t[k] == TrigBindings[k]
  {
    // The trig keys and the others are disjoint, so the order of the union does not matter.
    map[
      "sqrt" := Function(Sqrt), "log" := Function(Log), "ln" := Function(Log),
      "log10" := Function(Log10), "exp" := Function(Exp), "pow" := Function(Pow),
      "abs" := Function(Abs), "factorial" := Function(Factorial), "fact" := Function(Factorial),
      "pi" := Constant(Pi), "e" := Constant(E)
    ] + TrigBindings
  }

  /** The conversion a trig wrapper applies around the underlying function. */
  datatype AngleStep = Keep | DegreesToRadians | RadiansToDegrees

  predicate IsInverse(t: Trig) {
    t == Asin || t == Acos || t == Atan
  }

  /** Conversion of the argument before the underlying function is called. */
  function ArgumentStep(t: Trig, mode: Mode): AngleStep {
    if !IsInverse(t) && mode == Deg then DegreesToRadians else Keep
  }

  /** Conversion of the underlying function's result. */
  function ResultStep(t: Trig, mode: Mode): AngleStep {
    if IsInverse(t) && mode == Deg then RadiansToDegrees else Keep
  }

  /**
    In degree mode every trig wrapper converts exactly once, on the side
    where angles appear; in radian mode none converts.
  */
  lemma ConversionsFollowMode(t: Trig, mode: Mode)
    ensures mode == Rad ==> ArgumentStep(t, mode) == Keep && ResultStep(t, mode) == Keep
    ensures mode == Deg ==> (ArgumentStep(t, mode) == Keep) != (ResultStep(t, mode) == Keep)
    ensures ArgumentStep(t, mode) != RadiansToDegrees && ResultStep(t, mode) != DegreesToRadians
  {
  }

  // ---------------------------------------------------------------------
  // The integer factorial guard
  // ---------------------------------------------------------------------

  function Fact(n: nat): (r: nat)
    ensures 1 <= r
  {
    if n == 0 then 1 else n * Fact(n - 1)
  }

  predicate IsIntegral(x: real) {
    x.Floor as real == x
  }

  /** The factorial the evaluator sees: defined on non-negative integral values only. */
  function FactorialOf(x: real): (r: Result<nat, EvalError>)
    ensures r.Failure? <==> x < 0.0 || !IsIntegral(x)
    ensures r.Failure? ==> r.error == DomainError
    ensures r.Success? ==> 1 <= r.value
  {
    if !IsIntegral(x) || x < 0.0 then Failure(DomainError) else Success(Fact(x.Floor))
  }

  /** On the naturals the guard computes n!: 0! is 1 and (n+1)! is (n+1) times n!. */
  lemma FactorialOfRecurrence(n: nat)
    ensures FactorialOf(0.0) == Success(1)
    ensures FactorialOf(n as real).Success?
    ensures FactorialOf((n + 1) as real) == Success((n + 1) * FactorialOf(n as real).value)
  {
    assert (n as real).Floor == n;
    assert ((n + 1) as real).Floor == n + 1;
  }

  lemma FactorialOfExamples()
    ensures FactorialOf(5.0) == Success(120)
    ensures FactorialOf(-1.0) == Failure(DomainError)
    ensures FactorialOf(2.5) == Failure(DomainError)
  {
    assert (5.0).Floor == 5;
    assert (2.5).Floor == 2;
  }

  // ---------------------------------------------------------------------
  // safe_eval
  // ---------------------------------------------------------------------

  /** The search for a character outside the allow-list: the position of the leftmost one. */
  function FindDisallowed(s: seq<char>): (k: Option<nat>)
    ensures k.None? <==> forall i | 0 <= i < |s| :: Allowed(s[i])
    ensures k.Some? ==> k.value < |s| && !Allowed(s[k.value])
    ensures k.Some? ==> forall i | 0 <= i < k.value :: Allowed(s[i])
    decreases |s|
  {
    if |s| == 0 then None
    else if !Allowed(s[0]) then Some(0)
    else match FindDisallowed(s[1..])
      case None => None
      case Some(j) => Some(j + 1)
  }

  /**
    Everything `safe_eval` does before it calls the evaluator: normalise,
    then refuse the text if any character is outside the allow-list.
  */
  function Prepare(expr: seq<char>): (r: Result<seq<char>, EvalError>)
    ensures r.Failure? <==> exists i | 0 <= i < |expr| :: !Allowed(expr[i])
    ensures r.Failure? ==> r.error == InvalidCharacter
    ensures r.Success? ==> r.value == Normalize(expr)
    ensures r.Success? ==> '^' !in r.value && forall i | 0 <= i < |r.value| :: Allowed(r.value[i])
  {
    var code := Normalize(expr);
    match FindDisallowed(code)
    case Some(_) => Failure(InvalidCharacter)
    case None => Success(code)
  }

  /**
    `safe_eval` followed by the float conversion its callers apply: the
    evaluator is consulted only on text the allow-list accepted.
  */
  function SafeEval(expr: seq<char>, names: NameTable, mode: Mode, eval: Evaluator): (r: Result<real, EvalError>)
    ensures r == Failure(InvalidCharacter) <==> exists i | 0 <= i < |expr| :: !Allowed(expr[i])
    ensures r.Success? <==> Prepare(expr).Success? && eval(Normalize(expr), names, mode).Some?
    ensures r.Success? ==> eval(Normalize(expr), names, mode) == Some(r.value)
  {
    match Prepare(expr)
    case Failure(e) => Failure(e)
    case Success(code) =>
      match eval(code, names, mode)
      case None => Failure(EvaluatorError)
      case Some(v) => Success(v)
  }

  /** A command separator is refused before the evaluator is consulted. */
  lemma InvalidCharacterExample(names: NameTable, mode: Mode, eval: Evaluator)
    ensures SafeEval("2+3;ls", names, mode, eval) == Failure(InvalidCharacter)
  {
    assert !Allowed("2+3;ls"[3]);
  }
}

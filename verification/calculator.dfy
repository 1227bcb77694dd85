/**
  The calculator's own state and the transitions its buttons cause: the
  entry line, the memory accumulator, the trig mode and the name table.
  Window layout, message boxes and the history list are not modelled.
*/
module Calculator {
  import opened Results
  import opened Evaluation
  import Strings
  import Lexical
  import Rewrite

  datatype Calc = Calc(entry: seq<char>, memory: real, mode: Mode, names: NameTable)

  /** The state at start-up: empty entry, memory 0, degree mode, the full name table. */
  function Initial(): (st: Calc)
    ensures st.entry == [] && st.memory == 0.0 && st.mode == Deg
    ensures Consistent(st)
  {
    Calc([], 0.0, DefaultMode, SafeNames())
  }

  /** The name table holds exactly the documented names, each trig name bound to its mode-aware wrapper. */
  predicate Consistent(st: Calc) {
    && st.names.Keys == NameKeys
    && forall k | k in TrigBindings :: k in st.names && st.names[k] == TrigBindings[k]
  }

  // ---------------------------------------------------------------------
  // The trig mode toggle
  // ---------------------------------------------------------------------

  /** Flip the mode, then rebind the six trig names; nothing else changes. */
  function ToggleTrigMode(st: Calc): (r: Calc)
    ensures r.mode != st.mode
    ensures r.names.Keys == st.names.Keys + TrigBindings.Keys
    ensures forall k | k in TrigBindings :: r.names[k] == TrigBindings[k]
    ensures forall k | k in st.names && k !in TrigBindings :: r.names[k] == st.names[k]
    ensures r.entry == st.entry && r.memory == st.memory
  {
    st.(mode := Toggled(st.mode), names := st.names + TrigBindings)
  }

  /**
    The rebuild keeps the key set and changes no binding: the wrappers
    read the mode when called, so the new mode alone changes how the trig
    names behave.
  */
  lemma ToggleKeepsNames(st: Calc, k: string)
    requires Consistent(st)
    ensures Consistent(ToggleTrigMode(st))
    ensures ToggleTrigMode(st).names == st.names
    ensures k in TrigBindings ==>
      var t := TrigBindings[k].trig;
      var m, m' := st.mode, ToggleTrigMode(st).mode;
      (ArgumentStep(t, m), ResultStep(t, m)) != (ArgumentStep(t, m'), ResultStep(t, m'))
  {
    var r := ToggleTrigMode(st);
    assert r.names.Keys == st.names.Keys;
    assert forall j | j in st.names :: r.names[j] == st.names[j];
  }

  /** Two toggles give back the state they started from. */
  lemma ToggleTwice(st: Calc)
    requires Consistent(st)
    ensures ToggleTrigMode(ToggleTrigMode(st)) == st
  {
    ToggleKeepsNames(st, "sin");
    ToggleKeepsNames(ToggleTrigMode(st), "sin");
  }

  // ---------------------------------------------------------------------
  // Buttons
  // ---------------------------------------------------------------------

  /** The effect of a button on the state. */
  datatype Key =
    | Clear                    // C and CE: empty the entry
    | Backspace                // drop the last character of the entry
    | Insert(text: seq<char>)  // append text to the entry
    | MemoryClear              // MC
    | MemoryAdd                // M+
    | MemorySubtract           // M-

  /** The labels that insert a function name and an opening parenthesis. */
  const FunctionLabels: set<string> := {
    "sin", "cos", "tan", "asin", "acos", "atan", "sqrt", "ln", "log10",
    "exp", "abs", "factorial", "log"
  }

  /** Labels whose effect depends on float parsing or printing, and are not modelled. */
  const UnmodelledLabels: set<string> := {"+/-", "=", "MR"}

  const BackspaceLabel: string := "\U{232B}"

  /**
    The button dispatch, in the order the source checks the labels. Digits,
    operators, `%`, `pi`, `e`, `!` and every unknown caption all append the
    caption itself.
  */
  function Classify(caption: string): (k: Option<Key>)
    ensures k.None? <==> caption in UnmodelledLabels
    ensures caption in FunctionLabels ==> k == Some(Insert(caption + "("))
  {
    if caption == "C" || caption == "CE" then Some(Clear)
    else if caption == BackspaceLabel then Some(Backspace)
    else if caption == "+/-" then None
    else if caption in FunctionLabels then Some(Insert(caption + "("))
    else if caption == "=" then None
    else if caption == "MC" then Some(MemoryClear)
    else if caption == "MR" then None
    else if caption == "M+" then Some(MemoryAdd)
    else if caption == "M-" then Some(MemorySubtract)
    else Some(Insert(caption))
  }

  function DropLast(s: seq<char>): (r: seq<char>)
    ensures |s| == 0 ==> r == []
    ensures 0 < |s| ==> s == r + [s[|s| - 1]]
  {
    if |s| == 0 then [] else s[..|s| - 1]
  }

  /**
    One button press. Only the entry and the memory change; memory
    operations evaluate the entry and leave everything as it was when the
    evaluation fails.
  */
  function Apply(st: Calc, key: Key, eval: Evaluator): (r: Calc)
    ensures r.mode == st.mode && r.names == st.names
    ensures key.Clear? || key.Backspace? || key.Insert? ==> r.memory == st.memory
    ensures key.MemoryClear? || key.MemoryAdd? || key.MemorySubtract? ==> r.entry == st.entry
    ensures key.Insert? ==> r.entry == st.entry + key.text
    ensures key.Clear? ==> r.entry == []
    ensures key.Backspace? ==> r.entry == DropLast(st.entry)
    ensures key.MemoryClear? ==> r.memory == 0.0
    ensures key.MemoryAdd? && SafeEval(st.entry, st.names, st.mode, eval).Success? ==>
      r.memory == st.memory + SafeEval(st.entry, st.names, st.mode, eval).value
    ensures key.MemorySubtract? && SafeEval(st.entry, st.names, st.mode, eval).Success? ==>
      r.memory == st.memory - SafeEval(st.entry, st.names, st.mode, eval).value
    ensures (key.MemoryAdd? || key.MemorySubtract?) && SafeEval(st.entry, st.names, st.mode, eval).Failure? ==> r == st
  {
    match key
    case Clear => st.(entry := [])
    case Backspace => st.(entry := DropLast(st.entry))
    case Insert(text) => st.(entry := st.entry + text)
    case MemoryClear => st.(memory := 0.0)
    case MemoryAdd =>
      (match SafeEval(st.entry, st.names, st.mode, eval)
       case Success(v) => st.(memory := st.memory + v)
       case Failure(_) => st)
    case MemorySubtract =>
      (match SafeEval(st.entry, st.names, st.mode, eval)
       case Success(v) => st.(memory := st.memory - v)
       case Failure(_) => st)
  }

  /** A labelled button press; `None` for the labels this model leaves out. */
  function OnButton(st: Calc, caption: string, eval: Evaluator): (r: Option<Calc>)
    ensures r.None? <==> caption in UnmodelledLabels
    ensures r.Some? ==> r.value.mode == st.mode && r.value.names == st.names
  {
    match Classify(caption)
    case None => None
    case Some(k) => Some(Apply(st, k, eval))
  }

  /** A function button appends its name and an opening parenthesis. */
  lemma FunctionButtonAppends(st: Calc, caption: string, eval: Evaluator)
    requires caption in FunctionLabels
    ensures OnButton(st, caption, eval) == Some(st.(entry := st.entry + caption + "("))
  {
    Strings.Assoc(st.entry, caption, "(");
  }

  /** `C` and `CE` empty the entry; the backspace caption drops its last character. */
  lemma EntryButtons(st: Calc, eval: Evaluator)
    ensures OnButton(st, "C", eval) == Some(st.(entry := []))
    ensures OnButton(st, "CE", eval) == Some(st.(entry := []))
    ensures OnButton(st, BackspaceLabel, eval) == Some(st.(entry := DropLast(st.entry)))
  {
    assert Classify("C") == Some(Clear) && Classify("CE") == Some(Clear);
    assert Classify(BackspaceLabel) == Some(Backspace);
  }

  /** `MC` zeroes the memory; `M+` and `M-` add and subtract the evaluated entry. */
  lemma MemoryButtons(st: Calc, eval: Evaluator)
    ensures OnButton(st, "MC", eval) == Some(st.(memory := 0.0))
    ensures OnButton(st, "M+", eval) == Some(Apply(st, MemoryAdd, eval))
    ensures OnButton(st, "M-", eval) == Some(Apply(st, MemorySubtract, eval))
  {
    assert "MC" !in FunctionLabels && "M+" !in FunctionLabels && "M-" !in FunctionLabels;
    assert Classify("MC") == Some(MemoryClear);
    assert Classify("M+") == Some(MemoryAdd);
    assert Classify("M-") == Some(MemorySubtract);
  }

  /** Every other ordinary caption is appended as it is. */
  lemma OtherButtonAppends(st: Calc, caption: string, eval: Evaluator)
    requires caption !in FunctionLabels && caption !in UnmodelledLabels
    requires caption !in {"C", "CE", "MC", "M+", "M-"} && caption != BackspaceLabel
    ensures OnButton(st, caption, eval) == Some(st.(entry := st.entry + caption))
  {
  }

  /** Backspace undoes the insertion of one character. */
  lemma BackspaceUndoesInsert(st: Calc, c: char, eval: Evaluator)
    ensures Apply(Apply(st, Insert([c]), eval), Backspace, eval) == st
  {
    var s := st.entry + [c];
    assert s[..|s| - 1] == st.entry;
  }

  /** M- after M+ on the same entry restores the memory: the evaluation is deterministic. */
  lemma MemoryAddThenSubtract(st: Calc, eval: Evaluator)
    ensures Apply(Apply(st, MemoryAdd, eval), MemorySubtract, eval) == st
  {
  }

  /** M+ adds the value of the entry, and leaves the memory alone on an invalid character. */
  lemma MemoryAddAdds(st: Calc, eval: Evaluator)
    ensures SafeEval(st.entry, st.names, st.mode, eval).Success? ==>
      Apply(st, MemoryAdd, eval).memory == st.memory + SafeEval(st.entry, st.names, st.mode, eval).value
    ensures (exists i | 0 <= i < |st.entry| :: !Lexical.Allowed(st.entry[i])) ==>
      Apply(st, MemoryAdd, eval) == st
  {
  }

  // ---------------------------------------------------------------------
  // Sessions
  // ---------------------------------------------------------------------

  datatype Event = Press(key: Key) | ToggleMode

  function Step(st: Calc, e: Event, eval: Evaluator): Calc {
    match e
    case Press(k) => Apply(st, k, eval)
    case ToggleMode => ToggleTrigMode(st)
  }

  /** The state after the events, first to last. */
  function Replay(st: Calc, events: seq<Event>, eval: Evaluator): Calc
    decreases |events|
  {
    if |events| == 0 then st else Replay(Step(st, events[0], eval), events[1..], eval)
  }

  function Toggles(events: seq<Event>): nat
    decreases |events|
  {
    if |events| == 0 then 0
    else (if events[0].ToggleMode? then 1 else 0) + Toggles(events[1..])
  }

  /** Whatever happens, the name table stays the documented one. */
  lemma {:induction false} ReplayKeepsNames(st: Calc, events: seq<Event>, eval: Evaluator)
    requires Consistent(st)
    ensures Consistent(Replay(st, events, eval))
    ensures Replay(st, events, eval).names == st.names
    decreases |events|
  {
    if |events| > 0 {
      if events[0].ToggleMode? {
        ToggleKeepsNames(st, "sin");
      }
      ReplayKeepsNames(Step(st, events[0], eval), events[1..], eval);
    }
  }

  /** The mode is the starting mode after an even number of toggles and the other one after an odd number. */
  lemma {:induction false} ReplayMode(st: Calc, events: seq<Event>, eval: Evaluator)
    ensures Replay(st, events, eval).mode == if Toggles(events) % 2 == 0 then st.mode else Toggled(st.mode)
    decreases |events|
  {
    if |events| > 0 {
      ReplayMode(Step(st, events[0], eval), events[1..], eval);
    }
  }

  /** From start-up, M+ on `5` and then M- on `2` leave 3 in memory. */
  lemma MemoryExample(eval: Evaluator)
    requires eval("5", SafeNames(), Deg) == Some(5.0)
    requires eval("2", SafeNames(), Deg) == Some(2.0)
    ensures
      var s2 := Apply(Apply(Initial(), Insert("5"), eval), MemoryAdd, eval);
      Apply(Apply(Apply(s2, Clear, eval), Insert("2"), eval), MemorySubtract, eval).memory == 3.0
  {
    var s1 := Apply(Initial(), Insert("5"), eval);
    assert s1.entry == "5";
    DigitMemory(s1, '5', 5.0, eval);
    var s2 := Apply(s1, MemoryAdd, eval);
    var s4 := Apply(Apply(s2, Clear, eval), Insert("2"), eval);
    assert s4.entry == "2";
    DigitMemory(s4, '2', 2.0, eval);
  }

  /** M+ and M- on an entry holding one digit add and subtract the digit's value. */
  lemma DigitMemory(st: Calc, c: char, v: real, eval: Evaluator)
    requires st.entry == [c] && Lexical.IsDigit(c)
    requires eval([c], st.names, st.mode) == Some(v)
    ensures Apply(st, MemoryAdd, eval).memory == st.memory + v
    ensures Apply(st, MemorySubtract, eval).memory == st.memory - v
  {
    DigitEntry(c, st.names, st.mode, eval);
  }

  /** A single digit passes the rewrites and the allow-list unchanged. */
  lemma DigitEntry(c: char, names: NameTable, mode: Mode, eval: Evaluator)
    requires Lexical.IsDigit(c)
    ensures Rewrite.Normalize([c]) == [c]
    ensures forall v | eval([c], names, mode) == Some(v) :: SafeEval([c], names, mode, eval) == Success(v)
  {
    var s := [c];
    assert '^' !in s && '%' !in s && '!' !in s;
    assert Rewrite.Caret(s) == s;
    assert Rewrite.Percent(s) == s;
    assert Rewrite.Factorial(s) == s;
    assert Lexical.Allowed(c);
  }
}

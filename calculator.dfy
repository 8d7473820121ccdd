/** The calculator window's input line (calc_button_click). Evaluating an
    expression (the '=' button) and taking a square root (the '√' button) go
    through Python's eval, floats and math.sqrt; their outcome is a parameter
    here: the text str(result) produces, or a failure. */
module Calculator {
  import opened Opt

  /** What evaluating gave: the printed result, or an exception. */
  datatype Outcome = Value(text: string) | Failure

  /** The text the input line shows after a failed evaluation. */
  const ErrorText: string := "Ошибка"

  /** The buttons of the calculator grid, row by row (the empty cell has no button). */
  const Buttons: seq<string> := [
    "7", "8", "9", "/", "C",
    "4", "5", "6", "*", "←",
    "1", "2", "3", "-", "(",
    "0", ".", "=", "+", ")",
    "π", "%", "^", "√"]

  /** The buttons that go to the final else branch and append their text. */
  predicate Appends(button: string) {
    button != "C" && button != "←" && button != "=" && button != "√"
  }

  /** current_text[:-1]: the text without its last character; empty stays empty. */
  function DropLast(s: string): (r: string)
    ensures s == [] ==> r == []
    ensures s != [] ==> r + [s[|s| - 1]] == s
  {
    if s == [] then [] else s[..|s| - 1]
  }

  /** One button press: the new input line and the line the press adds to the
      calculation history, if any. */
  datatype Press = Press(input: string, recorded: Option<string>)

  function Click(current: string, button: string, outcome: Outcome): Press {
    if button == "C" then Press([], None)
    else if button == "←" then Press(DropLast(current), None)
    else if button == "=" then
      match outcome
      case Value(v) => Press(v, Some(current + " = " + v))
      case Failure => Press(ErrorText, None)
    else if button == "√" then
      match outcome
      case Value(v) => Press(v, None)
      case Failure => Press(ErrorText, None)
    else Press(current + button, None)
  }

  /** 'C' empties the input line, whatever it held. */
  lemma ClearEmpties(current: string, outcome: Outcome)
    ensures Click(current, "C", outcome).input == []
    ensures Click(current, "C", outcome).recorded == None
  {
  }

  /** '←' removes exactly the last character, keeps the rest, and does nothing
      on an empty line. */
  lemma BackspaceDropsLast(current: string, outcome: Outcome)
    ensures var r := Click(current, "←", outcome).input;
      && |r| == (if current == [] then 0 else |current| - 1)
      && r <= current
  {
  }

  /** Any other button but '=' and '√' extends the line by its own text. */
  lemma AppendExtends(current: string, button: string, outcome: Outcome)
    requires Appends(button)
    ensures var r := Click(current, button, outcome).input;
      && current <= r && r[|current|..] == button
  {
    assert (current + button)[|current|..] == button;
  }

  /** '←' undoes the press of any one-character button that appends. */
  lemma BackspaceUndoesAppend(current: string, button: string, o1: Outcome, o2: Outcome)
    requires Appends(button) && |button| == 1
    ensures Click(Click(current, button, o1).input, "←", o2).input == current
  {
    assert (current + button)[..|current|] == current;
  }

  /** Every appending button of the grid is a single character, so '←' undoes
      any of them. */
  lemma GridAppendsOneChar()
    ensures forall k :: 0 <= k < |Buttons| && Appends(Buttons[k]) ==> |Buttons[k]| == 1
  {
  }

  /** Only a successful '=' adds a line to the calculation history, and that
      line is the expression, " = " and the result, which also becomes the
      input line; a failure shows the error text. */
  lemma OnlyEqualsRecords(current: string, button: string, outcome: Outcome)
    ensures Click(current, button, outcome).recorded.Some? <==> button == "=" && outcome.Value?
    ensures button == "=" && outcome.Value? ==>
      Click(current, button, outcome) == Press(outcome.text, Some(current + " = " + outcome.text))
    ensures (button == "=" || button == "√") && outcome.Failure? ==>
      Click(current, button, outcome).input == ErrorText
  {
  }

  /** The input line after a run of presses, each with its own outcome. */
  function ClickAll(current: string, buttons: seq<string>, outcomes: seq<Outcome>): string
    requires |outcomes| == |buttons|
    decreases |buttons|
  {
    if buttons == [] then current
    else ClickAll(Click(current, buttons[0], outcomes[0]).input, buttons[1..], outcomes[1..])
  }

  function Concat(parts: seq<string>): string
    decreases |parts|
  {
    if parts == [] then [] else parts[0] + Concat(parts[1..])
  }

  /** Pressing only appending buttons types their texts one after another. */
  lemma {:induction false} TypingConcatenates(current: string, buttons: seq<string>, outcomes: seq<Outcome>)
    requires |outcomes| == |buttons|
    requires forall k :: 0 <= k < |buttons| ==> Appends(buttons[k])
    ensures ClickAll(current, buttons, outcomes) == current + Concat(buttons)
    decreases |buttons|
  {
    if buttons != [] {
      TypingConcatenates(current + buttons[0], buttons[1..], outcomes[1..]);
      assert current + buttons[0] + Concat(buttons[1..]) == current + (buttons[0] + Concat(buttons[1..]));
    }
  }

  /** The calculator window's state: the input line and the calculation history. */
  class CalculatorWindow {
    var input: string
    var history: seq<string>

    constructor ()
      ensures input == [] && history == []
    {
      input := [];
      history := [];
    }

    /** calc_button_click. */
    method ButtonClick(button: string, outcome: Outcome)
      modifies this
      ensures input == Click(old(input), button, outcome).input
      ensures history == old(history) + match Click(old(input), button, outcome).recorded
        case Some(line) => [line]
        case None => []
    {
      var current := input;
      if button == "C" {
        input := [];
      } else if button == "←" {
        input := DropLast(current);
      } else if button == "=" {
        match outcome
        case Value(v) =>
          history := history + [current + " = " + v];
          input := v;
        case Failure =>
          input := ErrorText;
      } else if button == "√" {
        match outcome
        case Value(v) =>
          input := v;
        case Failure =>
          input := ErrorText;
      } else {
        input := current + button;
      }
    }
  }
}

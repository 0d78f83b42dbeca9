/** The terminal loop: what happens to each thing typed at the prompt. */
module Repl {
  import opened Wrappers
  import opened Text

  /** One outcome of `session.prompt`: a line, Ctrl+C, or Ctrl+D. */
  datatype Input = Line(text: string) | Interrupt | EndOfInput

  /** What the loop does with one input. */
  datatype Step = Quit | Skip | Cancel | Ask(question: string) | Hangup

  const ExitWords: seq<string> := ["quit", "exit", "退出"]
  const QuitFarewell := "Agent: 再见！祝你投资顺利。"
  const EofFarewell := "\nAgent: 再见！"

  /** The exit test, then the blank test, in the order the loop makes them. */
  function Classify(input: Input): (r: Step)
    ensures r == Quit <==> input.Line? && Lower(input.text) in ExitWords
    ensures r.Ask? <==> input.Line? && Lower(input.text) !in ExitWords && !IsBlank(input.text)
    ensures r.Ask? ==> r.question == input.text
    ensures r == Cancel <==> input == Interrupt
    ensures r == Hangup <==> input == EndOfInput
  {
    match input
    case Line(text) =>
      if Lower(text) in ExitWords then Quit
      else if IsBlank(text) then Skip
      else Ask(text)
    case Interrupt => Cancel
    case EndOfInput => Hangup
  }

  predicate Ends(input: Input) {
    Classify(input) == Quit || Classify(input) == Hangup
  }

  /** The questions handed to the agent, up to the first exit word or end of input. */
  function Asked(inputs: seq<Input>): (r: seq<string>)
    ensures |r| <= |inputs|
  {
    if inputs == [] then []
    else match Classify(inputs[0])
      case Ask(q) => [q] + Asked(inputs[1..])
      case Quit => []
      case Hangup => []
      case _ => Asked(inputs[1..])
  }

  /** The goodbye the loop prints when it stops, or `None` while it would still be prompting. */
  function Farewell(inputs: seq<Input>): Option<string> {
    if inputs == [] then None
    else match Classify(inputs[0])
      case Quit => Some(QuitFarewell)
      case Hangup => Some(EofFarewell)
      case _ => Farewell(inputs[1..])
  }

  /** The loop of the program's entry point, over a scripted sequence of prompt results. */
  method RunSession(inputs: seq<Input>) returns (asked: seq<string>, farewell: Option<string>)
    ensures asked == Asked(inputs)
    ensures farewell == Farewell(inputs)
  {
    asked := [];
    farewell := None;
    var i := 0;
    while i < |inputs| && farewell == None
      invariant 0 <= i <= |inputs|
      invariant farewell == None ==>
        asked + Asked(inputs[i..]) == Asked(inputs) && Farewell(inputs[i..]) == Farewell(inputs)
      invariant farewell != None ==> asked == Asked(inputs) && farewell == Farewell(inputs)
    {
      var step := Classify(inputs[i]);
      assert inputs[i..][0] == inputs[i] && inputs[i..][1..] == inputs[i + 1..];
      match step {
        case Quit =>
          farewell := Some(QuitFarewell);
        case Hangup =>
          farewell := Some(EofFarewell);
        case Ask(q) =>
          asked := asked + [q];
        case _ =>
      }
      i := i + 1;
    }
    if farewell == None {
      assert inputs[i..] == [];
    }
  }

  /** Nothing blank and no exit word ever reaches the agent. */
  lemma {:induction false} AskedAreQuestions(inputs: seq<Input>)
    ensures forall q :: q in Asked(inputs) ==> !IsBlank(q) && Lower(q) !in ExitWords
  {
    if inputs != [] {
      AskedAreQuestions(inputs[1..]);
    }
  }

  /** Every non-blank, non-exit line before the first stop is asked, in order. */
  lemma {:induction false} AskedKeepsOrder(inputs: seq<Input>, q: string)
    requires !IsBlank(q) && Lower(q) !in ExitWords
    requires forall k :: 0 <= k < |inputs| ==> !Ends(inputs[k])
    ensures Asked(inputs + [Line(q)]) == Asked(inputs) + [q]
  {
    if inputs == [] {
      assert [Line(q)][1..] == [];
    } else {
      assert (inputs + [Line(q)])[1..] == inputs[1..] + [Line(q)];
      AskedKeepsOrder(inputs[1..], q);
    }
  }

  /** Once the loop stops, later input is never asked. */
  lemma {:induction false} NothingAfterStop(before: seq<Input>, stop: Input, after: seq<Input>)
    requires Ends(stop)
    ensures Asked(before + [stop] + after) == Asked(before + [stop])
    ensures Farewell(before + [stop] + after) == Farewell(before + [stop])
  {
    if before == [] {
      assert ([stop] + after)[0] == stop;
    } else {
      assert (before + [stop] + after)[1..] == before[1..] + [stop] + after;
      assert (before + [stop])[1..] == before[1..] + [stop];
      NothingAfterStop(before[1..], stop, after);
    }
  }

  /** Ctrl+C only cancels the current prompt; the loop carries on. */
  lemma InterruptIgnored(inputs: seq<Input>)
    ensures Asked([Interrupt] + inputs) == Asked(inputs)
    ensures Farewell([Interrupt] + inputs) == Farewell(inputs)
  {
    assert ([Interrupt] + inputs)[1..] == inputs;
  }

  /** The loop's decision ignores ASCII letter case: two lines that lower-case alike are both
      exit words or neither, and both questions or neither. */
  lemma ClassifyIgnoresCase(s: string, t: string)
    requires Lower(s) == Lower(t)
    ensures Classify(Line(s)) == Quit <==> Classify(Line(t)) == Quit
    ensures Classify(Line(s)).Ask? <==> Classify(Line(t)).Ask?
  {
    assert |s| == |Lower(s)| == |t|;
    forall i | 0 <= i < |s| ensures IsSpace(s[i]) <==> IsSpace(t[i]) {
      assert Lower(s)[i] == Lower(t)[i];
    }
    assert IsBlank(s) <==> IsBlank(t);
  }

  /** For example, `QUIT` ends the session. */
  lemma UpperQuitEnds(s: string)
    requires s == "QUIT"
    ensures Classify(Line(s)) == Quit
  {
    assert Lower(s) == [LowerChar('Q')] + Lower("UIT");
    assert Lower("UIT") == "uit";
    assert Lower(s) == ExitWords[0];
  }

  /** The exit test does not strip: a padded exit word is handed to the agent. */
  lemma PaddedQuitAsked(s: string)
    requires s == " quit"
    ensures Classify(Line(s)) == Ask(s)
  {
    assert Lower(s) == s;
    assert forall w :: w in ExitWords ==> w[0] != ' ';
    assert !IsSpace(s[1]);
  }
}

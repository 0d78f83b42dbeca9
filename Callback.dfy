/** The text shaping done by `HackerMatrixCallback` before it prints. */
module Callback {
  import opened Text

  const ActionMarker := "Action:"
  const SnippetLength := 150
  const Ellipsis := "..."

  /** Whether `pat` occurs in `s` at some position. */
  predicate Occurs(s: string, pat: string) {
    exists j :: 0 <= j <= |s| && StartsWith(s[j..], pat)
  }

  /** `on_agent_action`: the thought is the log up to the first `Action:`, stripped. The cut
      `before` is a prefix of the log with no `Action:` starting inside it, followed in the log
      by `Action:` unless it is the whole log. */
  function ThoughtText(log: string): (r: string)
    ensures exists before ::
      (StartsWith(log, before) && r == Strip(before) &&
       (forall j :: 0 <= j < |before| ==> !StartsWith(log[j..], ActionMarker)) &&
       (before == log || StartsWith(log[|before|..], ActionMarker)))
  {
    Strip(BeforeFirst(log, ActionMarker))
  }

  /** A log with no `Action:` in it is shown whole, stripped. */
  lemma ThoughtWithoutAction(log: string)
    requires !Occurs(log, ActionMarker)
    ensures ThoughtText(log) == Strip(log)
  {
    var before := BeforeFirst(log, ActionMarker);
    assert !StartsWith(log[|before|..], ActionMarker);
  }

  /** The thought stops at the first `Action:` of the log. */
  lemma ThoughtStopsAtAction(thought: string, rest: string)
    requires !Occurs(thought, ActionMarker)
    ensures ThoughtText(thought + ActionMarker + rest) == Strip(thought)
  {
    var log := thought + ActionMarker + rest;
    var before := BeforeFirst(log, ActionMarker);
    assert log[|thought|..] == ActionMarker + rest;
    assert StartsWith(log[|thought|..], ActionMarker);
    forall j | 0 <= j < |thought| ensures !StartsWith(log[j..], ActionMarker) {
      NoMarkerAcross(thought, rest, j);
    }
    assert |before| == |thought|;
    assert before == log[..|thought|] == thought;
  }

  /** `Action:` cannot start inside `thought` and run on into the marker that follows it: the
      marker never overlaps itself. */
  lemma NoMarkerAcross(thought: string, rest: string, j: nat)
    requires !Occurs(thought, ActionMarker) && j < |thought|
    ensures !StartsWith((thought + ActionMarker + rest)[j..], ActionMarker)
  {
    var log := thought + ActionMarker + rest;
    var m := ActionMarker;
    var k := |thought| - j;
    if k >= |m| {
      assert !StartsWith(thought[j..], m);
      assert log[j..][..|m|] == thought[j..][..|m|];
    } else {
      // Read from j, the marker would run past the end of `thought`, so its character k would
      // be the first character of the marker that follows, 'A'; no later character of
      // "Action:" is an 'A'.
      assert log[j..][k] == log[|thought|] == m[0];
      assert m[k] != m[0];
    }
  }

  /** `str(output)[:150].replace('\n', ' ') + "..."`; the parameter is the tool output already
      converted with `str`. */
  function ToolSnippet(output: string): (r: string)
    ensures var n := if |output| < SnippetLength then |output| else SnippetLength;
      |r| == n + |Ellipsis| && r[n..] == Ellipsis &&
      forall i :: 0 <= i < n ==> r[i] == (if output[i] == '\n' then ' ' else output[i])
  {
    var n := if |output| < SnippetLength then |output| else SnippetLength;
    NewlinesToSpaces(output[..n]) + Ellipsis
  }

  function NewlinesToSpaces(s: string): (r: string)
    ensures |r| == |s|
    ensures forall i :: 0 <= i < |s| ==> r[i] == (if s[i] == '\n' then ' ' else s[i])
  {
    if s == [] then [] else [if s[0] == '\n' then ' ' else s[0]] + NewlinesToSpaces(s[1..])
  }

  /** The snippet is at most 153 characters long and holds no line break. */
  lemma SnippetShape(output: string)
    ensures |ToolSnippet(output)| <= SnippetLength + |Ellipsis|
    ensures '\n' !in ToolSnippet(output)
  {
    var r := ToolSnippet(output);
    forall i | 0 <= i < |r| ensures r[i] != '\n' {
      var n := if |output| < SnippetLength then |output| else SnippetLength;
      if i >= n {
        assert r[i] == Ellipsis[i - n];
      }
    }
  }

  /** Only the first 150 characters of the output matter. */
  lemma SnippetIgnoresRest(output: string, more: string)
    requires |output| >= SnippetLength
    ensures ToolSnippet(output + more) == ToolSnippet(output)
  {
    assert (output + more)[..SnippetLength] == output[..SnippetLength];
  }

  /** A short single-line output is shown in full. */
  lemma ShortOutputShown(output: string)
    requires |output| <= SnippetLength && '\n' !in output
    ensures ToolSnippet(output) == output + Ellipsis
  {
    var r := ToolSnippet(output);
    assert r[..|output|] == output;
  }
}

/**
 Turning the chosen section into the chatbot's reply: the section's first
 line in bold, a sentence that repeats the question in lower case, every
 further line as a numbered bold step, and a fixed closing remark.
 */
module Answer {
  import opened Text

  const Closing: string := "\n\U{1F4A1} **Laat me weten als je verdere hulp nodig hebt!**"

  /** The bold first line and the blank line after it. */
  function Header(first: string): string {
    "**" + first + "**\n\n"
  }

  /** The introductory sentence built around the lower-cased question. */
  function Intro(query: string): string {
    "Om " + Lower(query) + " te doen, volg je deze stappen:\n\n"
  }

  /** Step `i` of the reply: the number's digits, a dot, and the line, ending in a newline. */
  function NumberedStep(i: nat, step: string): (r: string)
    ensures |r| > |NatToString(i)| + 1
    ensures r[..|NatToString(i)|] == NatToString(i) && r[|NatToString(i)|] == '.'
    ensures r[|r| - 1] == '\n'
  {
    NatToString(i) + ". **" + Strip(step) + "**\n"
  }

  /** `steps` rendered as numbered lines, counting from `first`. */
  function RenderSteps(steps: seq<string>, first: nat): (r: seq<string>)
    ensures |r| == |steps|
    ensures forall j :: 0 <= j < |steps| ==> r[j] == NumberedStep(first + j, steps[j])
    decreases |steps|
  {
    if |steps| == 0 then [] else [NumberedStep(first, steps[0])] + RenderSteps(steps[1..], first + 1)
  }

  function Concat(parts: seq<string>): string
    decreases |parts|
  {
    if |parts| == 0 then [] else parts[0] + Concat(parts[1..])
  }

  /** `format_answer`, given the section the retrieval step chose: it opens in bold and ends with the closing remark. */
  function FormatAnswer(query: string, section: string): (r: string)
    ensures |r| >= 2 + |Closing|
    ensures r[..2] == "**" && r[|r| - |Closing|..] == Closing
  {
    var lines := Split(section, "\n");
    Header(lines[0]) + Intro(query) + Concat(RenderSteps(lines[1..], 1)) + Closing
  }

  /** A rendered step is one line: it ends in a newline and has no other. */
  lemma StepIsOneLine(i: nat, step: string)
    requires '\n' !in step
    ensures var r := NumberedStep(i, step);
      && |r| > 0 && r[|r| - 1] == '\n' && '\n' !in r[..|r| - 1]
  {
    var lead := StripInfix(step);
    var t := Strip(step);
    assert '\n' !in t by {
      forall k | 0 <= k < |t|
        ensures t[k] != '\n'
      {
        assert t[k] == step[lead + k];
        assert step[lead + k] in step;
      }
    }
    var d := NatToString(i);
    assert '\n' !in d by {
      forall k | 0 <= k < |d|
        ensures d[k] != '\n'
      {
        assert IsDigit(d[k]);
      }
    }
    var r := NumberedStep(i, step);
    assert r == (d + ". **" + t + "**") + "\n";
  }

  /**
   The reply opens with the section's first line in bold and the question,
   then has one step per further line of the section, numbered 1, 2, ... in
   order, and ends with the closing remark. No line of the section contains a
   newline, and each step is exactly one line of the reply.
   */
  lemma {:induction false} FormatAnswerShape(query: string, section: string)
    ensures var lines := Split(section, "\n");
      var steps := RenderSteps(lines[1..], 1);
      && |steps| == CountChar(section, '\n')
      && (forall j :: 0 <= j < |steps| ==> steps[j] == NumberedStep(j + 1, lines[j + 1]))
      && (forall j :: 0 <= j < |lines| ==> '\n' !in lines[j])
      && (forall j :: 0 <= j < |steps| ==>
            |steps[j]| > 0 && steps[j][|steps[j]| - 1] == '\n' && '\n' !in steps[j][..|steps[j]| - 1])
      && FormatAnswer(query, section) == Header(lines[0]) + Intro(query) + Concat(steps) + Closing
  {
    SplitOnChar(section, '\n');
    var lines := Split(section, "\n");
    var steps := RenderSteps(lines[1..], 1);
    forall j | 0 <= j < |steps|
      ensures steps[j] == NumberedStep(j + 1, lines[j + 1])
      ensures |steps[j]| > 0 && steps[j][|steps[j]| - 1] == '\n' && '\n' !in steps[j][..|steps[j]| - 1]
    {
      assert lines[1..][j] == lines[j + 1];
      StepIsOneLine(j + 1, lines[j + 1]);
    }
  }

  /** The number printed in front of step `j` reads back as `j`. */
  lemma {:induction false} StepNumberReadsBack(j: nat, step: string)
    ensures NumberedStep(j, step)[..|NatToString(j)|] == NatToString(j)
    ensures DigitsValue(NatToString(j)) == j
    ensures NumberedStep(j, step)[|NatToString(j)|] == '.'
  {
    NatToStringRoundTrip(j);
  }
}

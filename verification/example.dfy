/**
 A worked example: a manual with one heading and two body lines, read line
 by line as the file reader returns them, and the question "reset password".
 Each stage of the computation is its own lemma.
 */
module Example {
  import opened Text
  import opened Seqs
  import Sections
  import Retrieval
  import Answer
  import Api

  const Heading: string := "Reset Password"
  const Line1: string := "Click settings"
  const Line2: string := "Click reset"
  const Question: string := "reset password"

  /** The manual `### Reset Password`, `Click settings`, `Click reset`, without a final newline. */
  const Manual: seq<string> := [Sections.Marker + Heading + "\n", Line1 + "\n", Line2]

  /** The one section the manual holds. */
  const Section: string := Heading + "\n" + Line1 + "\n" + Line2

  lemma StripsTo(core: string, tail: string)
    requires IsStripped(core) && AllSpace(tail)
    ensures Strip(core + tail) == core
  {
    StripUnique([], core, tail);
    assert [] + core + tail == core + tail;
  }

  lemma HeadingLine()
    ensures Sections.IsHeading(Manual[0])
    ensures Sections.Step(Sections.Start, Manual[0]) == Sections.Parser([], Heading)
  {
    Sections.NoMarkerWithoutHash(Heading + "\n");
    Sections.TitleOfHeading(Heading + "\n");
    ConcatAssoc(Sections.Marker, Heading, "\n");
    StripsTo(Heading, "\n");
  }

  lemma FirstBodyLine()
    ensures !Sections.IsHeading(Manual[1])
    ensures Sections.Step(Sections.Parser([], Heading), Manual[1])
      == Sections.Parser([], Heading + "\n" + Line1)
  {
    StripsTo(Line1, "\n");
    ConcatAssoc(Heading, "\n", Line1);
  }

  lemma SecondBodyLine()
    ensures !Sections.IsHeading(Manual[2])
    ensures Sections.Step(Sections.Parser([], Heading + "\n" + Line1), Manual[2])
      == Sections.Parser([], Section)
  {
    StripsTo(Line2, []);
    assert Line2 + [] == Line2;
    ConcatAssoc(Heading + "\n" + Line1, "\n", Line2);
  }

  /** The manual parses to a single section whose first line is the heading's title. */
  lemma ManualSections()
    ensures Sections.Parse(Manual) == [Section]
  {
    HeadingLine();
    FirstBodyLine();
    SecondBodyLine();
    var p1 := Sections.Parser([], Heading);
    var p2 := Sections.Parser([], Heading + "\n" + Line1);
    var p3 := Sections.Parser([], Section);
    assert Sections.Run(p3, Manual[3..]) == p3;
    assert Sections.Run(p2, Manual[2..]) == p3;
    assert Sections.Run(p1, Manual[1..]) == p3;
    assert Sections.Run(Sections.Start, Manual) == p3;
    assert Section[0] == 'R';
    assert Section[|Section| - 1] == 't';
    StripsTo(Section, []);
    assert Section + [] == Section;
  }

  /** A section of a title and two stripped lines splits back into those three lines. */
  lemma ThreeLines(t: string, a: string, b: string)
    requires '\n' !in t && '\n' !in a && '\n' !in b
    ensures Split(t + "\n" + a + "\n" + b, "\n") == [t, a, b]
  {
    var parts := [t, a, b];
    assert Join(parts[2..], "\n") == b;
    assert Join(parts[1..], "\n") == a + "\n" + b;
    assert Join(parts, "\n") == t + "\n" + (a + "\n" + b);
    ConcatAssoc(t + "\n", a + "\n", b);
    ConcatAssoc(t + "\n", a, "\n");
    assert '\n' !in parts[0] && '\n' !in parts[1] && '\n' !in parts[2];
    JoinSplit(parts, '\n');
  }

  /** Two stripped body lines become steps 1 and 2. */
  lemma TwoSteps(a: string, b: string)
    requires IsStripped(a) && IsStripped(b)
    ensures Answer.RenderSteps([a, b], 1) == ["1. **" + a + "**\n", "2. **" + b + "**\n"]
  {
    StripsTo(a, []);
    assert a + [] == a;
    StripsTo(b, []);
    assert b + [] == b;
    assert NatToString(1) + ". **" == "1. **";
    assert NatToString(2) + ". **" == "2. **";
  }

  /** The reply to a section of a title and two lines: the title in bold, the question, then the lines as steps 1 and 2. */
  lemma TwoStepReply(q: string, t: string, a: string, b: string)
    requires '\n' !in t && '\n' !in a && '\n' !in b
    requires IsStripped(a) && IsStripped(b)
    ensures Answer.FormatAnswer(q, t + "\n" + a + "\n" + b)
      == Answer.Header(t) + Answer.Intro(q)
         + (("1. **" + a + "**\n") + ("2. **" + b + "**\n")) + Answer.Closing
  {
    ThreeLines(t, a, b);
    var lines := [t, a, b];
    assert lines[1..] == [a, b];
    TwoSteps(a, b);
    var steps := Answer.RenderSteps([a, b], 1);
    assert Answer.Concat(steps[1..][1..]) == [];
    assert Answer.Concat(steps[1..]) == steps[1] + [];
    assert steps[1] + [] == steps[1];
  }

  /** A question that is not blank, asked of a one-section manual, is answered from that section. */
  lemma AskOne(q: string, section: string, score: real)
    requires !AllSpace(q)
    ensures Api.Ask(q, [section], [score]) == Api.Answered(q, Answer.FormatAnswer(q, section))
  {
    assert Retrieval.IsFirstMax([score], 0);
  }

  lemma SingleLines()
    ensures '\n' !in Heading && '\n' !in Line1 && '\n' !in Line2
    ensures IsStripped(Line1) && IsStripped(Line2)
  {
  }

  lemma QuestionNotBlank()
    ensures !AllSpace(Question)
  {
    assert !IsSpace(Question[0]);
  }

  /** End to end: the question is answered from the only section of the manual, its two body lines numbered 1 and 2. */
  lemma ResetPassword()
    ensures var sections := Sections.Parse(Manual);
      && sections == [Section]
      && Api.Ask(Question, sections, [0.0])
         == Api.Answered(Question,
              Answer.Header(Heading) + Answer.Intro(Question)
              + (("1. **" + Line1 + "**\n") + ("2. **" + Line2 + "**\n")) + Answer.Closing)
  {
    ManualSections();
    SingleLines();
    TwoStepReply(Question, Heading, Line1, Line2);
    QuestionNotBlank();
    AskOne(Question, Section, 0.0);
  }
}

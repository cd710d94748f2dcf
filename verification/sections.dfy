/**
 The section parser: a left fold over the manual's lines that cuts it into
 sections at every line starting with the heading marker `### `. The
 accumulator `current` holds the section being built; a heading closes it
 (keeping it only when it is a non-empty string) and opens a new one whose
 first line is the heading's title; any other line is appended after a
 newline, trimmed. Lines are given as the file reader returns them, each
 possibly still ending in its newline.
 */
module Sections {
  import opened Text
  import opened Seqs

  const Marker: string := "### "

  /** `line.startswith("### ")`. */
  predicate IsHeading(line: string) {
    |Marker| <= |line| && line[..|Marker|] == Marker
  }

  /** The first line of the section a heading opens: every marker removed, then stripped. */
  function Title(heading: string): (r: string)
    ensures IsStripped(r)
  {
    Strip(RemoveAll(heading, Marker))
  }

  /** What a non-heading line adds to the section being built. */
  function BodyLine(line: string): string {
    "\n" + Strip(line)
  }

  /** The parser state: the finished sections and the accumulator. */
  datatype Parser = Parser(sections: seq<string>, current: string)

  const Start: Parser := Parser([], "")

  predicate AllStripped(ss: seq<string>) {
    forall i :: 0 <= i < |ss| ==> IsStripped(ss[i])
  }

  /** The section an accumulator contributes when closed: none when the accumulator is the empty string. */
  function Emit(current: string): (r: seq<string>)
    ensures |r| == (if current == [] then 0 else 1)
  {
    if |current| > 0 then [Strip(current)] else []
  }

  /** Closing the accumulator: the truthiness test is on the untrimmed string. */
  function Flush(p: Parser): seq<string> {
    p.sections + Emit(p.current)
  }

  /** One iteration of the parsing loop: only a heading after a non-empty accumulator finishes a section. */
  function Step(p: Parser, line: string): (r: Parser)
    ensures |r.sections| == |p.sections| + (if IsHeading(line) && p.current != [] then 1 else 0)
  {
    if IsHeading(line) then Parser(Flush(p), Title(line))
    else Parser(p.sections, p.current + BodyLine(line))
  }

  /** The loop over all lines, as a left fold. */
  function Run(p: Parser, lines: seq<string>): Parser
    decreases |lines|
  {
    if |lines| == 0 then p else Run(Step(p, lines[0]), lines[1..])
  }

  /** The sections of a whole document: the loop, then the final flush. Every section has no whitespace at either end. */
  function Parse(lines: seq<string>): (r: seq<string>)
    ensures AllStripped(r)
  {
    RunKeepsFinished(Start, lines);
    var q := Run(Start, lines);
    assert AllStripped(Flush(q)) by {
      forall i | 0 <= i < |Flush(q)|
        ensures IsStripped(Flush(q)[i])
      {
        if i >= |q.sections| { assert Flush(q)[i] == Strip(q.current); }
      }
    }
    Flush(q)
  }

  /** A heading closes the accumulator, keeping it stripped when it is non-empty, and opens a section on its title. */
  lemma StepOnHeading(p: Parser, line: string)
    requires IsHeading(line)
    ensures var q := Step(p, line);
      && |q.sections| == |p.sections| + (if p.current == [] then 0 else 1)
      && q.sections[..|p.sections|] == p.sections
      && (p.current != [] ==> q.sections[|p.sections|] == Strip(p.current))
      && q.current == Strip(RemoveAll(line, Marker))
      && IsStripped(q.current)
  {
  }

  /** Any other line extends the accumulator by a newline and the line stripped; nothing else changes. */
  lemma StepOnBodyLine(p: Parser, line: string)
    requires !IsHeading(line)
    ensures var q := Step(p, line);
      && q.sections == p.sections
      && |q.current| == |p.current| + 1 + |Strip(line)|
      && q.current[..|p.current|] == p.current
      && q.current[|p.current|] == '\n'
      && q.current[|p.current| + 1..] == Strip(line)
  {
    var q := Step(p, line);
    assert q.current == p.current + ("\n" + Strip(line));
  }

  /** Finished sections are never revised, and stay stripped. */
  lemma {:induction false} RunKeepsFinished(p: Parser, lines: seq<string>)
    ensures var q := Run(p, lines);
      && |p.sections| <= |q.sections|
      && q.sections[..|p.sections|] == p.sections
      && (AllStripped(p.sections) ==> AllStripped(q.sections))
    decreases |lines|
  {
    if |lines| > 0 {
      var q := Step(p, lines[0]);
      RunKeepsFinished(q, lines[1..]);
      var r := Run(q, lines[1..]);
      assert q.sections[..|p.sections|] == p.sections;
      assert r.sections[..|p.sections|] == r.sections[..|q.sections|][..|p.sections|];
      if AllStripped(p.sections) {
        assert AllStripped(q.sections) by {
          forall i | 0 <= i < |q.sections|
            ensures IsStripped(q.sections[i])
          {
            if i >= |p.sections| { assert q.sections[i] == Strip(p.current); }
          }
        }
      }
    }
  }

  // ---------------------------------------------------------------------------
  // A block-wise reading of the same parser: a document is an optional leading
  // run of body lines followed by blocks, each one heading and the body lines
  // after it up to the next heading.

  /** The number of lines before the first heading. */
  function LeadingBody(lines: seq<string>): (n: nat)
    ensures n <= |lines|
    ensures n == |lines| || IsHeading(lines[n])
    decreases |lines|
  {
    if |lines| == 0 || IsHeading(lines[0]) then 0 else 1 + LeadingBody(lines[1..])
  }

  /** The text body lines add to a section. */
  function Body(lines: seq<string>): string
    decreases |lines|
  {
    if |lines| == 0 then [] else BodyLine(lines[0]) + Body(lines[1..])
  }

  /** The sections of a document that starts with a heading (or is empty), block by block. */
  function HeadedBlocks(lines: seq<string>): seq<string>
    requires |lines| == 0 || IsHeading(lines[0])
    decreases |lines|
  {
    if |lines| == 0 then []
    else
      var n := LeadingBody(lines[1..]);
      assert 1 + n == |lines| || IsHeading(lines[1 + n]) by {
        if 1 + n < |lines| { assert lines[1 + n] == lines[1..][n]; }
      }
      Emit(Title(lines[0]) + Body(lines[1..1 + n])) + HeadedBlocks(lines[1 + n..])
  }

  /** The sections of any document, block by block. */
  function BlockSections(lines: seq<string>): seq<string> {
    var n := LeadingBody(lines);
    Emit(Body(lines[..n])) + HeadedBlocks(lines[n..])
  }

  /** Running the fold from any state finishes with that state's sections, its open block, then the remaining blocks. */
  lemma {:induction false} RunIsBlockwise(p: Parser, lines: seq<string>)
    ensures var n := LeadingBody(lines);
      Flush(Run(p, lines)) == p.sections + Emit(p.current + Body(lines[..n])) + HeadedBlocks(lines[n..])
    decreases |lines|
  {
    if |lines| == 0 {
      assert p.current + Body(lines[..0]) == p.current;
    } else if IsHeading(lines[0]) {
      RunIsBlockwise(Step(p, lines[0]), lines[1..]);
      HeadingStepIsBlockwise(p, lines);
    } else {
      RunIsBlockwise(Step(p, lines[0]), lines[1..]);
      BodyStepIsBlockwise(p, lines);
    }
  }

  lemma HeadingStepIsBlockwise(p: Parser, lines: seq<string>)
    requires |lines| > 0 && IsHeading(lines[0])
    requires var rest := lines[1..]; var m := LeadingBody(rest);
      Flush(Run(Step(p, lines[0]), rest))
        == Step(p, lines[0]).sections + Emit(Step(p, lines[0]).current + Body(rest[..m])) + HeadedBlocks(rest[m..])
    ensures Flush(Run(p, lines)) == p.sections + Emit(p.current + Body(lines[..0])) + HeadedBlocks(lines[0..])
  {
    var rest := lines[1..];
    var m := LeadingBody(rest);
    SliceShift(lines, m);
    var q := Step(p, lines[0]);
    var e := Emit(Title(lines[0]) + Body(rest[..m]));
    var h := HeadedBlocks(rest[m..]);
    var e0 := Emit(p.current);
    assert Flush(Run(p, lines)) == (p.sections + e0) + e + h;
    assert HeadedBlocks(lines) == e + h;
    assert lines[..0] == [];
    assert p.current + Body(lines[..0]) == p.current;
    assert lines[0..] == lines;
    ConcatAssoc(p.sections + e0, e, h);
  }

  lemma BodyStepIsBlockwise(p: Parser, lines: seq<string>)
    requires |lines| > 0 && !IsHeading(lines[0])
    requires var rest := lines[1..]; var m := LeadingBody(rest);
      Flush(Run(Step(p, lines[0]), rest))
        == Step(p, lines[0]).sections + Emit(Step(p, lines[0]).current + Body(rest[..m])) + HeadedBlocks(rest[m..])
    ensures var n := LeadingBody(lines);
      Flush(Run(p, lines)) == p.sections + Emit(p.current + Body(lines[..n])) + HeadedBlocks(lines[n..])
  {
    var rest := lines[1..];
    var m := LeadingBody(rest);
    var n := LeadingBody(lines);
    assert n == m + 1;
    SliceShift(lines, m);
    var q := Step(p, lines[0]);
    assert q.sections == p.sections;
    assert q.current == p.current + BodyLine(lines[0]);
    assert Body(lines[..n]) == BodyLine(lines[0]) + Body(rest[..m]);
    ConcatAssoc(p.current, BodyLine(lines[0]), Body(rest[..m]));
    assert q.current + Body(rest[..m]) == p.current + Body(lines[..n]);
  }

  /** The fold and the block-wise reading produce the same sections, in document order. */
  lemma ParseIsBlockwise(lines: seq<string>)
    ensures Parse(lines) == BlockSections(lines)
  {
    RunIsBlockwise(Start, lines);
    var n := LeadingBody(lines);
    var b := Body(lines[..n]);
    assert Start.current + b == b;
    assert Start.sections + Emit(b) == Emit(b);
  }

  // ---------------------------------------------------------------------------
  // How many sections a document yields.

  function HeadingCount(lines: seq<string>): nat
    decreases |lines|
  {
    if |lines| == 0 then 0 else (if IsHeading(lines[0]) then 1 else 0) + HeadingCount(lines[1..])
  }

  /** A heading whose title strips to nothing and that is followed directly by another heading or by the end. */
  predicate EmptyHeadingAt(lines: seq<string>, i: int)
    requires 0 <= i < |lines|
  {
    IsHeading(lines[i]) && Title(lines[i]) == [] && (i + 1 == |lines| || IsHeading(lines[i + 1]))
  }

  /** The headings that leave an empty accumulator behind and so produce no section. */
  function EmptyHeadingCount(lines: seq<string>): nat
    decreases |lines|
  {
    if |lines| == 0 then 0 else (if EmptyHeadingAt(lines, 0) then 1 else 0) + EmptyHeadingCount(lines[1..])
  }

  /** Text before the first heading forms a section of its own. */
  function LeadingSection(lines: seq<string>): nat {
    if |lines| > 0 && !IsHeading(lines[0]) then 1 else 0
  }

  lemma {:induction false} RunCount(p: Parser, lines: seq<string>)
    ensures |Flush(Run(p, lines))|
      == |p.sections| + (if p.current != [] || LeadingSection(lines) == 1 then 1 else 0)
         + HeadingCount(lines) - EmptyHeadingCount(lines)
    decreases |lines|
  {
    if |lines| > 0 {
      var q := Step(p, lines[0]);
      RunCount(q, lines[1..]);
      if IsHeading(lines[0]) {
        assert EmptyHeadingAt(lines, 0) <==> q.current == [] && LeadingSection(lines[1..]) == 0;
      }
    }
  }

  /** Every heading opens a section except those with an empty title and no body, and leading text adds one. */
  lemma SectionCount(lines: seq<string>)
    ensures |Parse(lines)| == HeadingCount(lines) - EmptyHeadingCount(lines) + LeadingSection(lines)
  {
    RunCount(Start, lines);
  }

  lemma {:induction false} NoEmptyHeadings(lines: seq<string>)
    requires forall i :: 0 <= i < |lines| && IsHeading(lines[i]) ==> Title(lines[i]) != []
    ensures EmptyHeadingCount(lines) == 0
    decreases |lines|
  {
    if |lines| > 0 {
      assert !EmptyHeadingAt(lines, 0);
      forall i | 0 <= i < |lines[1..]| && IsHeading(lines[1..][i])
        ensures Title(lines[1..][i]) != []
      {
        assert lines[1..][i] == lines[i + 1];
      }
      NoEmptyHeadings(lines[1..]);
    }
  }

  /** When no heading has a blank title, the count is the number of headings, plus one for leading text. */
  lemma SectionCountWithTitles(lines: seq<string>)
    requires forall i :: 0 <= i < |lines| && IsHeading(lines[i]) ==> Title(lines[i]) != []
    ensures |Parse(lines)| == HeadingCount(lines) + LeadingSection(lines)
  {
    SectionCount(lines);
    NoEmptyHeadings(lines);
  }

  // ---------------------------------------------------------------------------
  // Documents without headings, and headings without stray markers.

  function StripEach(lines: seq<string>): (r: seq<string>)
    ensures |r| == |lines|
    ensures forall i :: 0 <= i < |lines| ==> r[i] == Strip(lines[i])
  {
    seq(|lines|, i requires 0 <= i < |lines| => Strip(lines[i]))
  }

  lemma StripEachTail(lines: seq<string>)
    requires |lines| > 0
    ensures StripEach(lines)[1..] == StripEach(lines[1..])
  {
    var a := StripEach(lines)[1..];
    var b := StripEach(lines[1..]);
    forall i | 0 <= i < |a|
      ensures a[i] == b[i]
    {
      assert lines[1..][i] == lines[i + 1];
    }
  }

  lemma {:induction false} BodyIsJoin(lines: seq<string>)
    requires |lines| > 0
    ensures Body(lines) == "\n" + Join(StripEach(lines), "\n")
    decreases |lines|
  {
    var se := StripEach(lines);
    var head := Strip(lines[0]);
    assert se[0] == head;
    if |lines| == 1 {
      assert Body(lines) == BodyLine(lines[0]) + Body(lines[1..]);
      assert Body(lines[1..]) == [];
      AppendEmpty(BodyLine(lines[0]));
      assert Join(se, "\n") == head;
    } else {
      var tail := Join(StripEach(lines[1..]), "\n");
      BodyIsJoin(lines[1..]);
      StripEachTail(lines);
      assert Body(lines) == ("\n" + head) + ("\n" + tail);
      assert Join(se, "\n") == (head + "\n") + tail;
      Regroup("\n", head, "\n", tail);
    }
  }

  /** A non-empty document without headings is one section: every line trimmed, joined by newlines, stripped. */
  lemma NoHeadingDocument(lines: seq<string>)
    requires |lines| > 0
    requires forall i :: 0 <= i < |lines| ==> !IsHeading(lines[i])
    ensures Parse(lines) == [Strip(Join(StripEach(lines), "\n"))]
  {
    ParseIsBlockwise(lines);
    var n := LeadingBody(lines);
    assert n == |lines|;
    assert lines[..n] == lines;
    assert lines[n..] == [];
    var joined := Join(StripEach(lines), "\n");
    var body := Body(lines);
    BodyIsJoin(lines);
    assert body == "\n" + joined;
    StripSkipsLeadingSpace("\n", joined);
    assert Emit(body) == [Strip(joined)];
    assert BlockSections(lines) == Emit(body) + [];
    AppendEmpty(Emit(body));
  }

  /** A heading whose text after the marker holds no further marker is titled by that text, stripped. */
  lemma TitleOfHeading(text: string)
    requires forall i :: !OccursAt(text, Marker, i)
    ensures IsHeading(Marker + text)
    ensures Title(Marker + text) == Strip(text)
  {
    var line := Marker + text;
    assert line[..|Marker|] == Marker;
    assert line[|Marker|..] == text;
    RemoveAllWithoutOccurrence(text, Marker);
  }

  /** The marker starts with `#`, so text without `#` holds no marker. */
  lemma NoMarkerWithoutHash(text: string)
    requires '#' !in text
    ensures forall i :: !OccursAt(text, Marker, i)
  {
    forall i
      ensures !OccursAt(text, Marker, i)
    {
      if 0 <= i < |text| {
        assert text[i] in text;
        assert i + |Marker| <= |text| ==> text[i..i + |Marker|][0] == text[i];
      }
    }
  }
}

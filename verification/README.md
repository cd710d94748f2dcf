# Retrieval chatbot core, modelled in Dafny

The chatbot answers a question by picking one section of a manual and
rewriting it as numbered steps. At startup it cuts the manual into
sections: a line starting with `### ` opens a new section, and every
other line is added to the open one. For each question it scores every
section, takes the section with the first maximal score, and formats it:

- the section's first line in bold;
- a sentence repeating the lower-cased question;
- one numbered bold step per further line;
- a fixed closing remark.

A question that is blank after stripping is refused with HTTP status 400.

The model has one module per part of `main.py`:

- `Text` (`text.dfy`) holds the Python string builtins the code uses: `strip`, `lower`, `replace(pat, "")`, `split` and the decimal form of an `int` in an f-string. It also defines `join`, which the code does not call, to state what `split` and `replace` compute.
- `Sections` (`sections.dfy`) is the parsing loop, as a left fold over the lines with a string accumulator.
- `Retrieval` (`retrieval.dfy`) is the argmax selection over one score per section.
- `Answer` (`answer.dfy`) is `format_answer`.
- `Api` (`api.dfy`) is the blank-question guard of `ask_question` and the reply it builds.
- `Seqs` (`seqs.dfy`) holds generic slicing and concatenation facts the proofs use.
- `Example` (`example.dfy`) works through one manual and one question from the file lines to the reply.

The manual is given as the sequence of lines the file reader returns, so
each line may still end in its newline. The similarity scores are given
as one `real` per section, in section order.

## Edge cases of the parser

- The code checks whether the accumulator is empty before it strips it (`main.py:19`, `main.py:24`). So a manual that opens with one or more blank lines followed by a heading, or a non-empty manual that is all blank, yields an empty-string section. Blank lines followed by a non-heading line are harmless: the leading newlines are stripped off with the rest.
- A heading whose title strips to nothing leaves an empty accumulator. If another heading or the end of the manual follows it directly, it produces no section. So the number of sections is not always the number of headings plus one for leading text. `Sections.SectionCount` gives the exact count.
- A manual without headings becomes at most one section. An empty manual gives none, and a non-empty all-blank one gives the empty string. Otherwise the section is the stripped lines joined by newlines, then stripped again, so its first line is the manual's first non-blank line, and the formatter bolds that line like a title.

## Model

| member | source | states |
|---|---|---|
| Sections.Parse | main.py:15-25 | The parsing loop and the final flush. Every stored section has no whitespace at either end. `Sections.ParseIsBlockwise` gives the full contents and `Sections.SectionCount` the exact number of sections. |
| Sections.Step | main.py:18-23 | One pass of the loop body. A section is finished only by a heading line that meets a non-empty accumulator, and then exactly one is. `Sections.StepOnHeading` and `Sections.StepOnBodyLine` give the full effect of each branch. |
| Sections.Title | main.py:21 | The title a heading opens its section with has no whitespace at either end. `Sections.TitleOfHeading` gives its value for a heading with a single marker. |
| Sections.StepOnHeading | main.py:18-21 | A heading line closes the open section: it is appended stripped when the accumulator is non-empty, and earlier sections are untouched. The new accumulator is the line with every `### ` removed, then stripped. |
| Sections.StepOnBodyLine | main.py:22-23 | Any other line leaves the finished sections unchanged. It extends the accumulator by exactly a newline followed by the stripped line. |
| Sections.RunKeepsFinished | main.py:17-23 | Over the whole loop, finished sections are never revised or reordered. Sections that were stripped stay stripped. |
| Sections.RunIsBlockwise | main.py:15-25 | From any parser state, the loop plus the final flush yields the state's sections, then its open block, then one block per remaining heading. |
| Sections.ParseIsBlockwise | main.py:15-25 | The parser's output is the independent block-wise reading, in document order. Leading text comes first, then one entry per heading with its body lines. Each entry is kept only when its untrimmed text is non-empty. |
| Sections.SectionCount | main.py:15-25 | The number of sections is the number of headings, minus those with a blank title and no body, plus one when the first line is not a heading. |
| Sections.SectionCountWithTitles | main.py:15-25 | When every heading has a non-blank title, the count is the number of headings, plus one when the manual starts with a non-heading line. |
| Sections.NoHeadingDocument | main.py:17-25 | A non-empty manual without headings gives exactly one section: all lines stripped, joined by newlines, and the result stripped. |
| Sections.TitleOfHeading | main.py:18-21 | `### ` followed by text containing no further `### ` is a heading. Its title is that text, stripped. |
| Sections.BodyIsJoin | main.py:22-23 | The text a run of body lines adds is a newline followed by the stripped lines joined by newlines. |
| Text.Strip | main.py:20 | `strip` never lengthens a string and leaves no whitespace at either end. `Text.StripUnique`, `Text.StripInfix` and `Text.StripEmptyIffSpace` pin down what it removes. |
| Text.RemoveAll | main.py:21 | `replace("### ", "")` never lengthens the line. `Text.RemoveAllIsJoinOfSplit` and `Text.RemoveAllWithoutOccurrence` give its value. |
| Text.Split | main.py:46 | `split` always yields at least one piece. `Text.SplitJoin`, `Text.JoinSplit` and `Text.SplitOnChar` give its pieces. |
| Text.StripUnique | main.py:21 | `strip` is determined by its result: whitespace, then a core with no whitespace at either end, then whitespace, strips to that core. |
| Text.StripInfix | main.py:23 | The result of `strip` is a contiguous run of the input. Everything removed before and after it is whitespace. |
| Text.StripEmptyIffSpace | main.py:60 | A string strips to the empty string exactly when it is all whitespace. |
| Text.StripSkipsLeadingSpace | main.py:25 | Leading whitespace never changes the result of `strip`. This is why the newline before a manual's first body line disappears. |
| Text.StripIdempotent | main.py:20 | Stripping a stripped string changes nothing. |
| Text.RemoveAllIsJoinOfSplit | main.py:21 | `replace("### ", "")` equals joining the pieces of `split("### ")` with nothing between them. |
| Text.RemoveAllWithoutOccurrence | main.py:21 | A string with no `### ` in it is left unchanged by the removal. |
| Text.SplitJoin | main.py:46 | Joining the pieces of `split(sep)` with `sep` gives back the original string. |
| Text.JoinSplit | main.py:46 | Joining pieces that do not contain a character with that character, then splitting on it, gives back exactly those pieces. |
| Text.SplitOnChar | main.py:46 | Splitting on one character gives one more piece than there are occurrences of it. No piece contains it. |
| Text.Lower | main.py:49 | Lower-casing keeps the length and maps every character through the ASCII case map. No ASCII capital remains. |
| Text.LowerWithoutCapitals | main.py:49 | Lower-casing leaves text without ASCII capitals unchanged, so such a question appears in the intro as typed. |
| Text.NatToStringRoundTrip | main.py:52 | The decimal text of a step number reads back as that number. |
| Text.NatToString | main.py:52 | A step number is written as a non-empty run of decimal digits, with no leading zero. |
| Retrieval.ArgMax | main.py:40 | The chosen index is in range and its score is at least every other score. Every earlier index scores strictly less, so the first maximum wins. |
| Retrieval.FirstMaxUnique | main.py:40 | At most one index is a first maximum, so the choice is determined by the scores. |
| Retrieval.TieGoesToEarliest | main.py:40 | When index `i` holds a maximal score, the chosen index is `i` or earlier and has the same score. So all-equal scores pick the first section. |
| Retrieval.BestSection | main.py:37-41 | `find_best_section` returns the section at the first maximal score. |
| Answer.NumberedStep | main.py:52 | One rendered step starts with the decimal digits of its number followed by a dot, and ends in a newline. |
| Answer.FormatAnswer | main.py:44-55 | The reply opens with the bold marker and ends with the closing remark. `Answer.FormatAnswerShape` gives its four parts and its steps. |
| Answer.StepIsOneLine | main.py:52 | A step rendered from a line without a newline ends in a newline and holds no other. |
| Answer.RenderSteps | main.py:51-52 | Step `j` of the rendering is number `first + j`, a dot, and the stripped line in bold. There is one step per line. |
| Answer.FormatAnswerShape | main.py:44-55 | The reply has four parts in order. First the section's first line in bold, then the intro with the lower-cased question. Then exactly one step per newline in the section, numbered 1, 2, ... in line order. Last the closing remark. No line of the section contains a newline, and every step ends in a newline and has no other, so each step is one line of the reply. |
| Answer.StepNumberReadsBack | main.py:52 | Each step starts with its number's decimal text, which reads back as the number, followed by a dot. |
| Api.Ask | main.py:58-64 | A question is refused exactly when it is all whitespace, with status 400 and the fixed detail. Otherwise the reply echoes the question unchanged and formats the first best-scoring section. |
| Api.RejectionIgnoresIndex | main.py:60-61 | A refused question gets the same reply whatever the sections and scores are, so nothing is retrieved for it. |
| Example.ManualSections | main.py:15-25 | The manual `### Reset Password`, `Click settings`, `Click reset`, read as file lines, gives one section: the title and the two lines, joined by newlines. |
| Example.TwoStepReply | main.py:44-55 | A section of a title and two lines is answered with the title in bold, the intro, `1. **first line**`, `2. **second line**` and the closing remark. |
| Example.ResetPassword | main.py:15-64 | Asking `reset password` of that manual returns the question with a reply of the bold title, the intro and the steps `1. **Click settings**` and `2. **Click reset**`. |

## Left out

- Reading the manual from its file (`main.py:11-12`) is file I/O. The model takes the list of lines as input.
- The TF-IDF vectorizer and cosine similarity (`main.py:28-30`, `main.py:38-39`) are a floating-point library call. The model takes the resulting scores as an input sequence aligned with the sections.
- The web framework, the request model, the route decorators and the health endpoint (`main.py:8`, `main.py:33-34`, `main.py:58-59`, `main.py:67-69`) are HTTP plumbing. Only the guard and the reply's contents are modelled.
- The vectorizer fails at startup when no section holds a token of two or more word characters (word characters as regular expressions define them, which include letters, digits and the underscore), for example with an empty manual, a manual of blank lines only, or one holding only `### A`. The model leaves this failure out. `Api.Ask` and `Retrieval.BestSection` only require at least one section and one score per section, so they answer on manuals where the program never starts.
- `Retrieval.ArgMax` does not model not-a-number scores, which numpy's argmax would pick first. Cosine similarity never produces them.
- `Text.Strip` treats as whitespace only the characters Python treats as whitespace within Latin-1. Other Unicode spaces are left out.
- `Text.Lower` lower-cases only ASCII letters. Python's full Unicode case mapping is left out.

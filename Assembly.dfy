/** The top level of the conversion of one file. Worked examples, marked by
    a pair of `%Worked example start` / `%Worked example end` comments, are
    cut out and converted on their own, and references to their labels are
    rewritten; then every problem section gets a Markdown heading, its
    problems are converted on their own (from the file an `\input` names, or
    from the enumerate environment in place), and the text between problem
    sections is converted without the base-file passes. The whole is then
    converted once more as the base file.

    The conversion passes, the problem and worked-example converters, the
    reading of problem files and the reference rewriting are parameters
    here; the regular expressions that find worked examples and problem
    sections are not modelled: their matches are the input. */
module Assembly {
  import opened Strings
  import opened Splice
  import Titles

  // ---------------------------------------------------------------------------
  // Worked examples

  /** A worked-example match: where it starts, where the example text starts
      (after the start comment, the heading and the label line), where it
      ends (after the end comment), its title (group 3) and its label (group
      5, or "" when group 4 did not match). */
  datatype ExampleMatch = ExampleMatch(start: nat, textStart: nat, end: nat, title: string, labelName: string)

  /** What `re.finditer` guarantees: the matches lie inside the text, in
      order, without overlapping. */
  predicate ExamplesInOrder(src: string, ms: seq<ExampleMatch>) {
    (forall i :: 0 <= i < |ms| ==> ms[i].start <= ms[i].textStart <= ms[i].end <= |src|)
    && (forall i, j :: 0 <= i < j < |ms| ==> ms[i].end <= ms[j].start)
  }

  /** Where the text before the `i`-th example starts. */
  function ExampleGapStart(ms: seq<ExampleMatch>, i: nat): nat
    requires i <= |ms|
  {
    if i == 0 then 0 else ms[i - 1].end
  }

  /** From the `i`-th example on: the text before each example, then the
      converted example. */
  function ExamplesFrom(src: string, ms: seq<ExampleMatch>, process: (string, string, string) -> string, i: nat): string
    requires ExamplesInOrder(src, ms) && i <= |ms|
    decreases |ms| - i
  {
    if i == |ms| then ""
    else
      var m := ms[i];
      src[ExampleGapStart(ms, i)..m.start] + process(src[m.textStart..m.end], m.title, m.labelName)
      + ExamplesFrom(src, ms, process, i + 1)
  }

  /** The text with every worked example replaced by its conversion. */
  function WorkedExamples(src: string, ms: seq<ExampleMatch>, process: (string, string, string) -> string): string
    requires ExamplesInOrder(src, ms)
  {
    ExamplesFrom(src, ms, process, 0) + src[ExampleGapStart(ms, |ms|)..]
  }

  /** The labels of the examples, in order. */
  function ExampleLabels(ms: seq<ExampleMatch>): seq<string> {
    if ms == [] then [] else [ms[0].labelName] + ExampleLabels(ms[1..])
  }

  /** The reference rewriting for each label in turn. */
  function Relabelled(r: string, labels: seq<string>, exampleRefs: (string, string) -> string): string
    decreases |labels|
  {
    if labels == [] then r else Relabelled(exampleRefs(r, labels[0]), labels[1..], exampleRefs)
  }

  lemma ExampleLabelsAt(ms: seq<ExampleMatch>, i: nat)
    requires i < |ms|
    ensures ExampleLabels(ms[i..]) == [ms[i].labelName] + ExampleLabels(ms[i + 1..])
  {
    assert ms[i..][1..] == ms[i + 1..];
  }

  /** The splicing of worked examples in `ReadAndConvertLatexContent`. */
  method SpliceWorkedExamples(src: string, ms: seq<ExampleMatch>,
                              process: (string, string, string) -> string,
                              exampleRefs: (string, string) -> string) returns (r: string)
    requires ExamplesInOrder(src, ms)
    ensures ms == [] ==> r == src
    ensures ms != [] ==> r == Relabelled(WorkedExamples(src, ms, process), ExampleLabels(ms), exampleRefs)
  {
    if |ms| == 0 {
      return src;
    }
    var result := "";
    var prev := 0;
    var i := 0;
    while i < |ms|
      invariant 0 <= i <= |ms|
      invariant prev == ExampleGapStart(ms, i)
      invariant result + ExamplesFrom(src, ms, process, i) == ExamplesFrom(src, ms, process, 0)
    {
      var m := ms[i];
      ghost var before := result;
      result := result + src[prev..m.start];
      result := result + process(src[m.textStart..m.end], m.title, m.labelName);
      AppendPiece(before, src[prev..m.start], process(src[m.textStart..m.end], m.title, m.labelName),
                  ExamplesFrom(src, ms, process, i + 1));
      prev := m.end;
      i := i + 1;
    }
    assert ExamplesFrom(src, ms, process, |ms|) == "";
    assert result == ExamplesFrom(src, ms, process, 0);
    result := result + src[prev..];
    assert ms[0..] == ms;
    var j := 0;
    while j < |ms|
      invariant 0 <= j <= |ms|
      invariant Relabelled(result, ExampleLabels(ms[j..]), exampleRefs)
        == Relabelled(WorkedExamples(src, ms, process), ExampleLabels(ms), exampleRefs)
    {
      ExampleLabelsAt(ms, j);
      result := exampleRefs(result, ms[j].labelName);
      j := j + 1;
    }
    assert ExampleLabels(ms[|ms|..]) == [];
    r := result;
  }

  lemma AppendPiece(before: string, gap: string, text: string, rest: string)
    ensures (before + gap + text) + rest == before + (gap + text + rest)
  {
  }

  /** The edits the worked examples make: each match span, header and end
      comment included, replaced by the converted example. */
  function ExampleEdits(src: string, ms: seq<ExampleMatch>, process: (string, string, string) -> string): (es: seq<Edit>)
    requires ExamplesInOrder(src, ms)
    ensures |es| == |ms|
    ensures forall i :: 0 <= i < |ms| ==> es[i].start == ms[i].start && es[i].End() == ms[i].end
  {
    seq(|ms|, i requires 0 <= i < |ms| =>
      Edit(ms[i].start, ms[i].end - ms[i].start, process(src[ms[i].textStart..ms[i].end], ms[i].title, ms[i].labelName)))
  }

  /** Splicing the worked examples in is replacing their spans, left to
      right, and keeping all the text around them. */
  lemma WorkedExamplesStitched(src: string, ms: seq<ExampleMatch>, process: (string, string, string) -> string)
    requires ExamplesInOrder(src, ms)
    ensures Ordered(ExampleEdits(src, ms, process), 0, |src|)
    ensures WorkedExamples(src, ms, process) == Stitched(src, ExampleEdits(src, ms, process))
  {
    var es := ExampleEdits(src, ms, process);
    ExamplesForward(src, ms, process, es, 0);
  }

  lemma {:induction false} ExamplesForward(src: string, ms: seq<ExampleMatch>,
                                           process: (string, string, string) -> string, es: seq<Edit>, i: nat)
    requires ExamplesInOrder(src, ms) && i <= |ms|
    requires es == ExampleEdits(src, ms, process)
    ensures Ordered(es[i..], ExampleGapStart(ms, i), |src|)
    ensures ExamplesFrom(src, ms, process, i) + src[ExampleGapStart(ms, |ms|)..]
      == Forward(src, es[i..], ExampleGapStart(ms, i))
    decreases |ms| - i
  {
    ExampleEditsOrdered(src, ms, process, es, i);
    if i < |ms| {
      ExamplesForward(src, ms, process, es, i + 1);
      ExamplesForwardStep(src, ms, process, es, i, src[ExampleGapStart(ms, |ms|)..]);
    } else {
      var tail := src[ExampleGapStart(ms, |ms|)..];
      assert es[i..] == [];
      assert Forward(src, es[i..], ExampleGapStart(ms, i)) == tail;
      assert ExamplesFrom(src, ms, process, i) + tail == "" + tail == tail;
    }
  }

  /** One example more in front of the examples after it. */
  lemma ExamplesForwardStep(src: string, ms: seq<ExampleMatch>,
                            process: (string, string, string) -> string, es: seq<Edit>, i: nat, tail: string)
    requires ExamplesInOrder(src, ms) && i < |ms|
    requires es == ExampleEdits(src, ms, process)
    requires Ordered(es[i..], ExampleGapStart(ms, i), |src|)
    requires Ordered(es[i + 1..], ExampleGapStart(ms, i + 1), |src|)
    requires ExamplesFrom(src, ms, process, i + 1) + tail == Forward(src, es[i + 1..], ExampleGapStart(ms, i + 1))
    ensures ExamplesFrom(src, ms, process, i) + tail == Forward(src, es[i..], ExampleGapStart(ms, i))
  {
    var from := ExampleGapStart(ms, i);
    var m := ms[i];
    var text := process(src[m.textStart..m.end], m.title, m.labelName);
    var gap := src[from..m.start];
    var rest := ExamplesFrom(src, ms, process, i + 1);
    assert es[i].text == text && es[i].start == m.start && es[i].End() == m.end;
    assert ExampleGapStart(ms, i + 1) == m.end;
    assert es[i..][0] == es[i] && es[i..][1..] == es[i + 1..];
    assert Forward(src, es[i..], from) == gap + text + Forward(src, es[i + 1..], m.end);
    assert ExamplesFrom(src, ms, process, i) == gap + text + rest;
    Regroup(gap, text, rest, tail);
  }

  lemma Regroup(gap: string, text: string, rest: string, tail: string)
    ensures (gap + text + rest) + tail == gap + text + (rest + tail)
  {
  }

  /** The edits from the `i`-th on lie after the text before that example. */
  lemma ExampleEditsOrdered(src: string, ms: seq<ExampleMatch>,
                            process: (string, string, string) -> string, es: seq<Edit>, i: nat)
    requires ExamplesInOrder(src, ms) && i <= |ms|
    requires es == ExampleEdits(src, ms, process)
    ensures Ordered(es[i..], ExampleGapStart(ms, i), |src|)
  {
    var from := ExampleGapStart(ms, i);
    assert from <= |src| by {
      if i > 0 { assert ms[i - 1].end <= |src|; }
    }
    forall k | 0 <= k < |es[i..]| ensures from <= es[i..][k].start && es[i..][k].End() <= |src| {
      assert es[i..][k] == es[i + k];
      if i > 0 { assert ms[i - 1].end <= ms[i + k].start; }
    }
    forall k, l | 0 <= k < l < |es[i..]| ensures es[i..][k].End() <= es[i..][l].start {
      assert es[i..][k] == es[i + k] && es[i..][l] == es[i + l];
    }
  }

  /** Without worked examples the text is left as it is. */
  lemma NoWorkedExamples(src: string, process: (string, string, string) -> string)
    ensures WorkedExamples(src, [], process) == src
  {
  }

  // ---------------------------------------------------------------------------
  // Problem sections

  /** A problem-section match: where it starts, where the problems text
      starts (just after the `\section*{Problems}` heading, so a
      `\label{..}` line stays in the text handed on), where it ends, the file an
      `\input{..}` names (group 6, or ""), the section level (1 for
      `\section`, 2 for `\subsection`, 3 for `\subsubsection`) and the label
      (group 4, or ""). */
  datatype ProblemMatch = ProblemMatch(start: nat, textStart: nat, end: nat, sourceFile: string, level: nat, labelName: string)

  predicate ProblemsInOrder(src: string, ms: seq<ProblemMatch>) {
    (forall i :: 0 <= i < |ms| ==> ms[i].start <= ms[i].textStart <= ms[i].end <= |src|)
    && (forall i, j :: 0 <= i < j < |ms| ==> ms[i].end <= ms[j].start)
  }

  /** The conversion of a text: the second argument says whether it is the
      base file, which gets the reference, citation, footnote and fence
      passes. */
  type Converter = (string, bool) -> string

  /** Where the text after the `i`-th problem section ends: at the next
      section, or at the end of the file. */
  function NextStart(src: string, ms: seq<ProblemMatch>, i: nat): nat
    requires i < |ms|
  {
    if i < |ms| - 1 then ms[i + 1].start else |src|
  }

  /** The Markdown heading of a problem section: one level below the
      section it was in LaTeX, with its target line when it has a label. */
  function ProblemHeading(level: nat, labelName: string): string {
    (if labelName != "" then "(" + labelName + ")=" + "\n" else "") + Repeat('#', level + 1) + " Problems\n"
  }

  /** The problems of a section, converted: from the named file, opened
      under the name `ProblemFileName` makes of it, or from the text of the
      section. */
  function ProblemsText(src: string, m: ProblemMatch, processProblems: string -> string,
                        loadProblems: string -> string): string
    requires m.textStart <= m.end <= |src|
  {
    if m.sourceFile != "" then processProblems(loadProblems(ProblemFileName(m.sourceFile)))
    else processProblems(src[m.textStart..m.end])
  }

  /** One problem section: its heading, its problems and the converted text up
      to the next section. */
  function ProblemSection(src: string, ms: seq<ProblemMatch>, i: nat, convert: Converter,
                          processProblems: string -> string, loadProblems: string -> string): string
    requires ProblemsInOrder(src, ms) && i < |ms|
  {
    var m := ms[i];
    ProblemHeading(m.level, m.labelName) + ProblemsText(src, m, processProblems, loadProblems)
    + (if m.end < |src| then convert(src[m.end..NextStart(src, ms, i)], false) else "")
  }

  function ProblemSectionsFrom(src: string, ms: seq<ProblemMatch>, i: nat, convert: Converter,
                               processProblems: string -> string, loadProblems: string -> string): string
    requires ProblemsInOrder(src, ms) && i <= |ms|
    decreases |ms| - i
  {
    if i == |ms| then ""
    else
      ProblemSection(src, ms, i, convert, processProblems, loadProblems)
      + ProblemSectionsFrom(src, ms, i + 1, convert, processProblems, loadProblems)
  }

  /** The whole file: the text before the first problem section and all the
      problem sections, converted as the base file. */
  function ProblemLayout(src: string, ms: seq<ProblemMatch>, convert: Converter,
                         processProblems: string -> string, loadProblems: string -> string): string
    requires ProblemsInOrder(src, ms)
  {
    if ms == [] then convert(src, true)
    else convert(src[..ms[0].start] + ProblemSectionsFrom(src, ms, 0, convert, processProblems, loadProblems), true)
  }

  /** The problem-section layout in `ReadAndConvertLatexContent`. */
  method LayOutProblems(src: string, ms: seq<ProblemMatch>, convert: Converter,
                        processProblems: string -> string, loadProblems: string -> string) returns (result: string)
    requires ProblemsInOrder(src, ms)
    ensures result == ProblemLayout(src, ms, convert, processProblems, loadProblems)
  {
    if |ms| == 0 {
      return convert(src, true);
    }
    var fileLength := |src|;
    result := "";
    var i := 0;
    while i < |ms|
      invariant 0 <= i <= |ms|
      invariant result + ProblemSectionsFrom(src, ms, i, convert, processProblems, loadProblems)
        == ProblemSectionsFrom(src, ms, 0, convert, processProblems, loadProblems)
    {
      var m := ms[i];
      ghost var before := result;
      var section := AddProblemSection(src, ms, i, convert, processProblems, loadProblems);
      result := result + section;
      AppendSection(before, section, ProblemSectionsFrom(src, ms, i + 1, convert, processProblems, loadProblems));
      i := i + 1;
    }
    assert ProblemSectionsFrom(src, ms, |ms|, convert, processProblems, loadProblems) == "";
    assert result == ProblemSectionsFrom(src, ms, 0, convert, processProblems, loadProblems);
    result := convert(src[..ms[0].start] + result, true);
  }

  lemma AppendSection(before: string, section: string, rest: string)
    ensures (before + section) + rest == before + (section + rest)
  {
  }

  /** The body of the loop for one problem section, appending piece by piece. */
  method AddProblemSection(src: string, ms: seq<ProblemMatch>, i: nat, convert: Converter,
                           processProblems: string -> string, loadProblems: string -> string) returns (out: string)
    requires ProblemsInOrder(src, ms) && i < |ms|
    ensures out == ProblemSection(src, ms, i, convert, processProblems, loadProblems)
  {
    var m := ms[i];
    out := "";
    if m.labelName != "" {
      out := out + "(" + m.labelName + ")=" + "\n";
    }
    out := out + Repeat('#', m.level + 1) + " Problems\n";
    assert out == ProblemHeading(m.level, m.labelName);
    if m.sourceFile != "" {
      out := out + processProblems(loadProblems(ProblemFileName(m.sourceFile)));
    } else {
      out := out + processProblems(src[m.textStart..m.end]);
    }
    assert out == ProblemHeading(m.level, m.labelName) + ProblemsText(src, m, processProblems, loadProblems);
    ghost var withProblems := out;
    if m.end < |src| {
      if i < |ms| - 1 {
        out := out + convert(src[m.end..ms[i + 1].start], false);
      } else {
        assert src[m.end..] == src[m.end..NextStart(src, ms, i)];
        out := out + convert(src[m.end..], false);
      }
    } else {
      assert out == withProblems + "";
    }
  }

  /** The heading line of a problem section reads back as a Markdown heading
      one level below the LaTeX section (level 2 for `\section`), titled
      "Problems". */
  lemma ProblemHeadingLevel(level: nat)
    ensures ProblemHeading(level, "") == Titles.HeadingLine(level + 1, "Problems") + "\n"
    ensures Titles.ReadHeading(Titles.HeadingLine(level + 1, "Problems")) == Some((level + 1, "Problems"))
  {
    Titles.HeadingRoundTrip(level + 1, "Problems");
    assert Repeat('#', level + 1) + " Problems\n" == Repeat('#', level + 1) + " " + "Problems" + "\n";
  }

  /** The pieces of the file the layout uses: the text before the first
      section, then per section its LaTeX heading (replaced by the Markdown
      one), its problems text with any label line and the text after it. */
  function SectionPieces(src: string, ms: seq<ProblemMatch>, i: nat): string
    requires ProblemsInOrder(src, ms) && i < |ms|
    decreases |ms| - i
  {
    src[ms[i].start..ms[i].textStart] + src[ms[i].textStart..ms[i].end] + src[ms[i].end..NextStart(src, ms, i)]
    + (if i + 1 < |ms| then SectionPieces(src, ms, i + 1) else "")
  }

  /** Those pieces cover the file exactly: no text is lost or used twice. */
  lemma PiecesCoverSource(src: string, ms: seq<ProblemMatch>)
    requires ProblemsInOrder(src, ms) && ms != []
    ensures src[..ms[0].start] + SectionPieces(src, ms, 0) == src
  {
    PiecesFrom(src, ms, 0);
    assert src[..ms[0].start] + src[ms[0].start..] == src;
  }

  lemma {:induction false} PiecesFrom(src: string, ms: seq<ProblemMatch>, i: nat)
    requires ProblemsInOrder(src, ms) && i < |ms|
    ensures SectionPieces(src, ms, i) == src[ms[i].start..]
    decreases |ms| - i
  {
    var m := ms[i];
    var next := NextStart(src, ms, i);
    assert m.end <= next <= |src| by {
      if i + 1 < |ms| { assert m.end <= ms[i + 1].start <= ms[i + 1].end; }
    }
    assert src[m.start..m.textStart] + src[m.textStart..m.end] + src[m.end..next] == src[m.start..next];
    if i + 1 < |ms| {
      PiecesFrom(src, ms, i + 1);
      assert src[m.start..next] + src[next..] == src[m.start..];
    } else {
      assert src[m.start..next] + "" == src[m.start..];
    }
  }

  /** A conversion that leaves its text alone. */
  function KeepText(s: string, base: bool): string { s }

  function SameText(s: string): string { s }

  /** What the layout makes of the file when the conversions leave their text
      alone: each section's LaTeX heading replaced by its Markdown heading,
      and each problems text and the text after it kept in place. */
  function HeadingsReplaced(src: string, ms: seq<ProblemMatch>, i: nat): string
    requires ProblemsInOrder(src, ms) && i < |ms|
    decreases |ms| - i
  {
    var m := ms[i];
    ProblemHeading(m.level, m.labelName) + src[m.textStart..NextStart(src, ms, i)]
    + (if i + 1 < |ms| then HeadingsReplaced(src, ms, i + 1) else "")
  }

  /** The layout reads exactly the pieces above: with conversions that keep
      their text and the problems in the file itself, the result is the file
      with every problem heading rewritten and nothing else lost, moved or
      repeated. */
  lemma LayoutKeepsPieces(src: string, ms: seq<ProblemMatch>)
    requires ProblemsInOrder(src, ms) && ms != []
    requires forall k :: 0 <= k < |ms| ==> ms[k].sourceFile == ""
    ensures ProblemLayout(src, ms, KeepText, SameText, SameText) == src[..ms[0].start] + HeadingsReplaced(src, ms, 0)
  {
    SectionsKeepPieces(src, ms, 0);
  }

  lemma {:induction false} SectionsKeepPieces(src: string, ms: seq<ProblemMatch>, i: nat)
    requires ProblemsInOrder(src, ms) && i < |ms|
    requires forall k :: 0 <= k < |ms| ==> ms[k].sourceFile == ""
    ensures ProblemSectionsFrom(src, ms, i, KeepText, SameText, SameText) == HeadingsReplaced(src, ms, i)
    decreases |ms| - i
  {
    var m := ms[i];
    var next := NextStart(src, ms, i);
    assert m.end <= next <= |src| by {
      if i + 1 < |ms| { assert m.end <= ms[i + 1].start <= ms[i + 1].end; }
    }
    assert ProblemSection(src, ms, i, KeepText, SameText, SameText)
        == ProblemHeading(m.level, m.labelName) + src[m.textStart..next] by {
      assert ProblemsText(src, m, SameText, SameText) == src[m.textStart..m.end];
      if m.end < |src| {
        assert src[m.textStart..m.end] + src[m.end..next] == src[m.textStart..next];
      } else {
        assert src[m.textStart..m.end] + "" == src[m.textStart..next];
      }
    }
    if i + 1 < |ms| {
      SectionsKeepPieces(src, ms, i + 1);
    } else {
      assert ProblemSectionsFrom(src, ms, i + 1, KeepText, SameText, SameText) == "";
    }
  }

  // ---------------------------------------------------------------------------
  // The name of a problem file

  /** The file an `\input{name}` of problems is read from: the name with
      trailing `.`, `t`, `e` and `x` characters stripped (`str.rstrip` takes
      a set of characters), then `.tex`. */
  function ProblemFileName(name: string): (r: string)
    ensures 4 <= |r| <= |name| + 4 && r[|r| - 4..] == ".tex"
    ensures r[..|r| - 4] == name[..|r| - 4]
    ensures forall i :: |r| - 4 <= i < |name| ==> name[i] in ".tex"
    ensures |r| > 4 ==> r[|r| - 5] !in ".tex"
  {
    RStripChars(name, ".tex") + ".tex"
  }

  /** `s.rstrip(chars)`. */
  function RStripChars(s: string, chars: string): (r: string)
    ensures |r| <= |s|
    ensures r == s[..|r|]
    ensures r == [] || r[|r| - 1] !in chars
    ensures forall i :: |r| <= i < |s| ==> s[i] in chars
  {
    if s != [] && s[|s| - 1] in chars then RStripChars(s[..|s| - 1], chars) else s
  }

  /** A name without the extension loses the end of its own name: `sheet`
      is read from `sh.tex`. */
  lemma ProblemFileStripsTooMuch()
    ensures ProblemFileName("sheet") == "sh.tex"
  {
    assert "sheet"[..4] == "shee" && "shee"[..3] == "she" && "she"[..2] == "sh";
    assert 'h' !in ".tex";
  }

  /** The evidently intended name: `.tex` added unless it is already there. */
  function IntendedProblemFileName(name: string): (r: string)
    ensures |r| >= 4 && r[|r| - 4..] == ".tex"
  {
    if |name| >= 4 && name[|name| - 4..] == ".tex" then name else name + ".tex"
  }

  /** The intended name keeps the given name, with or without the extension. */
  lemma IntendedProblemFile(stem: string)
    ensures IntendedProblemFileName(stem + ".tex") == stem + ".tex"
    ensures IntendedProblemFileName(stem) == stem + ".tex" || IntendedProblemFileName(stem) == stem
    ensures IntendedProblemFileName(IntendedProblemFileName(stem)) == IntendedProblemFileName(stem)
  {
    assert (stem + ".tex")[|stem + ".tex"| - 4..] == ".tex";
    var r := stem + ".tex";
    assert r[|r| - 4..] == ".tex";
  }
}

/** The display-equation callbacks of the base file. An `equation`
    environment becomes a `$$ .. $$` block whose closing line carries the
    label; an `align` or `alignat` environment becomes one or more
    ```` ```{math} ```` directives holding an `align*` or `alignat*`
    environment. The regular expressions that find the environments, and
    the ones the align callback runs over the body, are not modelled: their
    captured groups and match positions are the input. */
module Equations {
  import opened Strings
  import opened LinePasses

  // ---------------------------------------------------------------------------
  // EquationReplace

  /** The groups of an `equation` match: the star (group 1), the label right
      after `\begin{equation}` (group 3, present exactly when group 2 is), the
      body (group 4) and a label at the end of the body (group 6, present
      exactly when group 5 is). */
  datatype EquationMatch = EquationMatch(star: Option<string>, labelName: Option<string>, body: string, endLabel: Option<string>)

  /** The label the equation gets: the one after `\begin{equation}` when there
      is one, otherwise the one at the end. */
  function EquationLabel(m: EquationMatch): Option<string> {
    if m.labelName.Some? then m.labelName else m.endLabel
  }

  /** What follows the closing `$$`: ` (label)` for a labelled equation. */
  function Tag(l: Option<string>): string {
    if l.Some? then " (" + l.value + ")" else ""
  }

  function EquationReplace(m: EquationMatch): string {
    "\n" + "$$" + "\n" + Strip(m.body) + "\n" + "$$" + Tag(EquationLabel(m)) + "\n"
  }

  /** How MyST's dollar-math reads the closing line of a block: the label in
      the parentheses after `$$`, if any. */
  function ReadClosing(line: string): Option<Option<string>> {
    if line == "$$" then Some(None)
    else if |line| >= 5 && line[..4] == "$$ (" && line[|line| - 1] == ')' then Some(Some(line[4..|line| - 1]))
    else None
  }

  lemma ClosingRoundTrip(l: Option<string>)
    ensures ReadClosing("$$" + Tag(l)) == Some(l)
  {
    if l.Some? {
      var line := "$$" + Tag(l);
      assert line[..4] == "$$ (";
      assert line[4..|line| - 1] == l.value;
    } else {
      assert "$$" + Tag(l) == "$$";
    }
  }

  /** Read back line by line, an equation is a blank line, the opening `$$`,
      the lines of the stripped body, the closing `$$` that carries the label
      (the one after `\begin{equation}` taking precedence), and the empty
      piece after the final newline. */
  lemma EquationReadBack(m: EquationMatch)
    requires EquationLabel(m).Some? ==> '\n' !in EquationLabel(m).value
    ensures Lines(EquationReplace(m)) == ["", "$$"] + Lines(Strip(m.body)) + ["$$" + Tag(EquationLabel(m)), ""]
    ensures ReadClosing("$$" + Tag(EquationLabel(m))) == Some(EquationLabel(m))
  {
    var b := Strip(m.body);
    var c := "$$" + Tag(EquationLabel(m));
    TagNoNewline(EquationLabel(m));
    assert EquationReplace(m) == "" + "\n" + ("$$" + "\n" + (b + "\n" + (c + "\n" + ""))) by {
      DisplayLayout("\n", "$$", b, Tag(EquationLabel(m)));
    }
    DisplayLines(b, c);
    ClosingRoundTrip(EquationLabel(m));
  }

  lemma TagNoNewline(l: Option<string>)
    requires l.Some? ==> '\n' !in l.value
    ensures '\n' !in "$$" + Tag(l)
  {
    if l.Some? {
      assert '\n' !in "$$" + " (" && '\n' !in ")";
      assert "$$" + Tag(l) == ("$$" + " (") + l.value + ")";
    }
  }

  lemma DisplayLines(b: string, c: string)
    requires '\n' !in c
    ensures Lines("" + "\n" + ("$$" + "\n" + (b + "\n" + (c + "\n" + "")))) == ["", "$$"] + Lines(b) + [c, ""]
  {
    var x3 := c + "\n" + "";
    var x2 := b + "\n" + x3;
    var x1 := "$$" + "\n" + x2;
    calc {
      Lines("" + "\n" + x1);
      { LinesCons("", x1); }
      [""] + Lines(x1);
      { LinesCons("$$", x2); }
      [""] + (["$$"] + Lines(x2));
      { LinesJoin(b, x3); }
      [""] + (["$$"] + (Lines(b) + Lines(x3)));
      { LinesCons(c, ""); LinesSingle(""); }
      [""] + (["$$"] + (Lines(b) + ([c] + [""])));
      ["", "$$"] + Lines(b) + [c, ""];
    }
  }

  lemma DisplayLayout(nl: string, d: string, b: string, t: string)
    ensures nl + d + nl + b + nl + d + t + nl == "" + nl + (d + nl + (b + nl + ((d + t) + nl + "")))
  {
  }

  // ---------------------------------------------------------------------------
  // AlignReplace

  /** The groups of an `align`/`alignat` match that the callback reads:
      the whole match (group 0); group 1, a math directive or `:label:` line
      in front that shows the environment was converted already; the opening
      `\begin{subequations}` (group 2); a label in front of the environment
      (group 4, present exactly when group 3 is); the `at` of `alignat`
      (group 5); its column count `{n}` (group 6); the label right after
      `\begin{align}` (group 8, with group 7); the body (group 9); and a label
      at its end (group 11, with group 10). */
  datatype AlignMatch = AlignMatch(
    whole: string, done: Option<string>, subequations: Option<string>,
    groupLabel: Option<string>, at: Option<string>, columns: Option<string>,
    labelName: Option<string>, body: string, endLabel: Option<string>)

  /** A `\label{name}` found in the body (with the white-space character after
      it, if any): where it starts and ends, and the name. */
  datatype LabelMatch = LabelMatch(start: nat, stop: nat, name: string)

  /** A stretch of the body that the clean-up substitution deletes: a label
      with the white-space character after it, or a `\nonumber`. */
  datatype Span = Span(start: nat, stop: nat)

  /** One math directive of the output: its label, whether it holds an
      `alignat*` environment (otherwise `align*`), and its equations. */
  datatype Block = Block(labelName: Option<string>, alignat: bool, equations: string)

  const MathOpen: string := "\n" + "```{math}" + "\n"

  function LabelLine(l: Option<string>): string {
    if l.Some? then ":label: " + l.value + "\n" else ""
  }

  /** The environment of a block and the closing fence; an `alignat*` needs
      the column count, and without one the source adds `None` to a string,
      which raises an exception: `None` here. */
  function Environment(alignat: bool, columns: Option<string>, eqs: string): (r: Option<string>)
    ensures r.None? <==> alignat && columns.None?
  {
    if alignat && columns.None? then None
    else Some(BeginLine(alignat, columns) + "\n" + eqs + "\n" + EndLine(alignat) + "\n" + "```" + "\n")
  }

  function RenderBlock(b: Block, columns: Option<string>): Option<string> {
    var env := Environment(b.alignat, columns, b.equations);
    if env.None? then None else Some(MathOpen + LabelLine(b.labelName) + env.value)
  }

  /** The blocks one after the other; `None` as soon as one of them fails. */
  function Render(bs: seq<Block>, columns: Option<string>): (r: Option<string>)
    ensures r.Some? <==> forall i :: 0 <= i < |bs| ==> RenderBlock(bs[i], columns).Some?
  {
    if bs == [] then Some("")
    else
      var init := Render(bs[..|bs| - 1], columns);
      var last := RenderBlock(bs[|bs| - 1], columns);
      assert forall i :: 0 <= i < |bs| - 1 ==> bs[..|bs| - 1][i] == bs[i];
      if init.None? || last.None? then None else Some(init.value + last.value)
  }

  /** The body with the given stretches deleted, as `re.sub` with an empty
      replacement leaves it. */
  function Kept(s: string, spans: seq<Span>, pos: int): string
    decreases |spans|
  {
    if spans == [] then Slice(s, pos, |s|)
    else Slice(s, pos, spans[0].start) + Kept(s, spans[1..], spans[0].stop)
  }

  /** The body is split into one block per label when there is no
      `subequations` around it, a label follows `\begin{align}`, and the body
      holds further labels. */
  predicate Splits(m: AlignMatch, labels: seq<LabelMatch>) {
    m.subequations.None? && m.labelName.Some? && labels != []
  }

  /** The label of the single block: the group label under `subequations`,
      otherwise the label after `\begin{align}`, otherwise the one at the end. */
  function SingleLabel(m: AlignMatch): Option<string> {
    if m.subequations.Some? then m.groupLabel
    else if m.labelName.Some? then m.labelName
    else m.endLabel
  }

  /** The equations of the first block of a split: the body up to two
      characters before the first further label. */
  function FirstEquations(body: string, labels: seq<LabelMatch>): string
    requires labels != []
  {
    Slice(body, 0, labels[0].start - 2)
  }

  /** The equations of the block of the k-th further label: from the end of
      that label to three characters before the next one, or to the end of
      the body for the last. */
  function LaterEquations(body: string, labels: seq<LabelMatch>, k: nat): string
    requires k < |labels|
  {
    if k + 1 < |labels| then Slice(body, labels[k].stop, labels[k + 1].start - 3)
    else Slice(body, labels[k].stop, |body|)
  }

  /** The blocks `AlignReplace` emits for an environment not converted yet.
      The blocks after the first test group 4 (the label in front of the
      environment) rather than group 5 (`at`) to choose `alignat*`. */
  function AlignBlocks(m: AlignMatch, labels: seq<LabelMatch>, drops: seq<Span>): seq<Block> {
    if Splits(m, labels) then
      [Block(m.labelName, m.at.Some?, FirstEquations(m.body, labels))] + LaterBlocks(m, labels)
    else
      var stripped := Kept(m.body, drops, 0);
      [Block(SingleLabel(m), m.at.Some?, if m.at.Some? then stripped else Strip(stripped))]
  }

  /** The blocks of the further labels of a split, in the order of the body. */
  function LaterBlocks(m: AlignMatch, labels: seq<LabelMatch>): (r: seq<Block>)
    ensures |r| == |labels|
    ensures forall k :: 0 <= k < |labels| ==>
      r[k] == Block(Some(labels[k].name), m.groupLabel.Some?, LaterEquations(m.body, labels, k))
  {
    seq(|labels|, k requires 0 <= k < |labels| =>
          Block(Some(labels[k].name), m.groupLabel.Some?, LaterEquations(m.body, labels, k)))
  }

  function AlignSpec(m: AlignMatch, labels: seq<LabelMatch>, drops: seq<Span>): Option<string> {
    if m.done.Some? then Some(m.whole) else Render(AlignBlocks(m, labels, drops), m.columns)
  }

  /** `AlignReplace`: a match already converted is returned as it is; a body
      with several labels is split, the loop adding one directive per further
      label; otherwise the labels and `\nonumber`s are deleted and the body
      goes into one directive. */
  method AlignReplace(m: AlignMatch, labels: seq<LabelMatch>, drops: seq<Span>) returns (r: Option<string>)
    ensures r == AlignSpec(m, labels, drops)
  {
    if m.done.Some? {
      return Some(m.whole);
    }
    var head := MathOpen;
    ghost var bs := AlignBlocks(m, labels, drops);
    if m.subequations.Some? {
      if m.groupLabel.Some? {
        head := head + LabelLine(m.groupLabel);
      }
    } else if m.labelName.Some? {
      head := head + LabelLine(m.labelName);
      if |labels| > 0 {
        r := SplitDirectives(m, labels, drops, head);
        return;
      }
    } else if m.endLabel.Some? {
      head := head + LabelLine(m.endLabel);
    }
    var stripped := KeptText(m.body, drops);
    var env;
    if m.at.Some? {
      env := Environment(true, m.columns, stripped);
    } else {
      env := Environment(false, m.columns, Strip(stripped));
    }
    SingleDirective(m, labels, drops, head, env);
    if env.None? {
      return None;
    }
    return Some(head + env.value);
  }

  lemma SingleDirective(m: AlignMatch, labels: seq<LabelMatch>, drops: seq<Span>, head: string, env: Option<string>)
    requires !Splits(m, labels)
    requires head == MathOpen + LabelLine(SingleLabel(m))
    requires env == Environment(m.at.Some?, m.columns, AlignBlocks(m, labels, drops)[0].equations)
    ensures Render(AlignBlocks(m, labels, drops), m.columns) == if env.None? then None else Some(head + env.value)
  {
    var bs := AlignBlocks(m, labels, drops);
    AlignSingleBlock(m, labels, drops);
    var b := bs[0];
    assert bs == [b];
    assert b.labelName == SingleLabel(m);
    RenderOne(b, m.columns);
  }

  lemma RenderOne(b: Block, columns: Option<string>)
    ensures Render([b], columns) == RenderBlock(b, columns)
  {
    assert [b][..0] == [];
    if RenderBlock(b, columns).Some? {
      assert "" + RenderBlock(b, columns).value == RenderBlock(b, columns).value;
    }
  }

  /** The split of `AlignReplace`: the first directive, then the loop over
      the further labels, one directive each. */
  method SplitDirectives(m: AlignMatch, labels: seq<LabelMatch>, drops: seq<Span>, head: string) returns (r: Option<string>)
    requires Splits(m, labels)
    requires head == MathOpen + LabelLine(m.labelName)
    ensures r == Render(AlignBlocks(m, labels, drops), m.columns)
  {
    ghost var bs := AlignBlocks(m, labels, drops);
    var first := Environment(m.at.Some?, m.columns, Slice(m.body, 0, labels[0].start - 2));
    assert bs[..1] == [bs[0]];
    if first.None? {
      RenderStops(bs, 0, m.columns);
      return None;
    }
    var out := head + first.value;
    assert RenderBlock(bs[0], m.columns) == Some(out);
    assert Render(bs[..1], m.columns) == Some("" + out);
    assert "" + out == out;
    for k := 0 to |labels|
      invariant Render(bs[..k + 1], m.columns) == Some(out)
    {
      var eqs := if k + 1 < |labels| then Slice(m.body, labels[k].stop, labels[k + 1].start - 3)
                 else Slice(m.body, labels[k].stop, |m.body|);
      var env := Environment(m.groupLabel.Some?, m.columns, eqs);
      if env.None? {
        assert Render(bs, m.columns).None? by {
          assert bs[k + 1] == Block(Some(labels[k].name), m.groupLabel.Some?, eqs);
          RenderStops(bs, k + 1, m.columns);
        }
        return None;
      }
      var piece := MathOpen + LabelLine(Some(labels[k].name)) + env.value;
      assert Render(bs[..k + 2], m.columns) == Some(out + piece) by {
        assert bs[k + 1] == Block(Some(labels[k].name), m.groupLabel.Some?, eqs);
        RenderSnoc(bs, k + 1, m.columns, out, piece);
      }
      out := out + piece;
    }
    assert bs[..|labels| + 1] == bs;
    return Some(out);
  }

  lemma RenderSnoc(bs: seq<Block>, n: nat, columns: Option<string>, out: string, piece: string)
    requires n < |bs|
    requires Render(bs[..n], columns) == Some(out)
    requires RenderBlock(bs[n], columns) == Some(piece)
    ensures Render(bs[..n + 1], columns) == Some(out + piece)
  {
    assert bs[..n + 1][..n] == bs[..n];
  }

  lemma RenderStops(bs: seq<Block>, n: nat, columns: Option<string>)
    requires n < |bs|
    requires RenderBlock(bs[n], columns).None?
    ensures Render(bs, columns).None?
  {
  }

  /** The clean-up substitution: the pieces between the deleted stretches. */
  method KeptText(s: string, spans: seq<Span>) returns (r: string)
    ensures r == Kept(s, spans, 0)
  {
    r := "";
    var pos: int := 0;
    for k := 0 to |spans|
      invariant r + Kept(s, spans[k..], pos) == Kept(s, spans, 0)
    {
      assert spans[k..][1..] == spans[k + 1..];
      r := r + Slice(s, pos, spans[k].start);
      pos := spans[k].stop;
    }
    r := r + Slice(s, pos, |s|);
  }

  // ---------------------------------------------------------------------------
  // What the blocks are

  /** Converting is skipped for an environment that is already inside a math
      directive. */
  lemma AlignAlreadyConverted(m: AlignMatch, labels: seq<LabelMatch>, drops: seq<Span>)
    requires m.done.Some?
    ensures AlignSpec(m, labels, drops) == Some(m.whole)
  {
  }

  /** A split gives one directive for the label after `\begin{align}` and one
      for every further label, in the order of the body; each further block
      holds the text from its label to the next one, minus the three
      characters of the line break `\\` and newline before it. */
  lemma AlignSplitBlocks(m: AlignMatch, labels: seq<LabelMatch>, drops: seq<Span>)
    requires Splits(m, labels)
    ensures |AlignBlocks(m, labels, drops)| == |labels| + 1
    ensures AlignBlocks(m, labels, drops)[0].labelName == m.labelName
    ensures AlignBlocks(m, labels, drops)[0].equations == Slice(m.body, 0, labels[0].start - 2)
    ensures forall k :: 0 <= k < |labels| ==> AlignBlocks(m, labels, drops)[k + 1].labelName == Some(labels[k].name)
    ensures forall k :: 0 <= k < |labels| - 1 ==>
      AlignBlocks(m, labels, drops)[k + 1].equations == Slice(m.body, labels[k].stop, labels[k + 1].start - 3)
    ensures AlignBlocks(m, labels, drops)[|labels|].equations == Drop(m.body, labels[|labels| - 1].stop)
  {
    SplitBlockAt(m, labels, drops);
    SplitLabels(m, labels, drops);
    SplitMiddleEquations(m, labels, drops);
    var n := |labels|;
    assert LaterEquations(m.body, labels, n - 1) == Slice(m.body, labels[n - 1].stop, |m.body|);
    SliceToEnd(m.body, labels[n - 1].stop);
  }

  lemma SplitBlockAt(m: AlignMatch, labels: seq<LabelMatch>, drops: seq<Span>)
    requires Splits(m, labels)
    ensures |AlignBlocks(m, labels, drops)| == |labels| + 1
    ensures AlignBlocks(m, labels, drops)[0].labelName == m.labelName
    ensures forall k :: 0 <= k < |labels| ==> AlignBlocks(m, labels, drops)[k + 1] == LaterBlocks(m, labels)[k]
  {
    var bs := AlignBlocks(m, labels, drops);
    var later := LaterBlocks(m, labels);
    assert bs == [bs[0]] + later;
    forall k | 0 <= k < |labels| ensures bs[k + 1] == later[k] {
    }
  }

  lemma SplitLabels(m: AlignMatch, labels: seq<LabelMatch>, drops: seq<Span>)
    requires Splits(m, labels)
    requires forall k :: 0 <= k < |labels| ==> AlignBlocks(m, labels, drops)[k + 1] == LaterBlocks(m, labels)[k]
    ensures forall k :: 0 <= k < |labels| ==> AlignBlocks(m, labels, drops)[k + 1].labelName == Some(labels[k].name)
  {
  }

  lemma SplitMiddleEquations(m: AlignMatch, labels: seq<LabelMatch>, drops: seq<Span>)
    requires Splits(m, labels)
    requires forall k :: 0 <= k < |labels| ==> AlignBlocks(m, labels, drops)[k + 1] == LaterBlocks(m, labels)[k]
    ensures forall k :: 0 <= k < |labels| - 1 ==>
      AlignBlocks(m, labels, drops)[k + 1].equations == Slice(m.body, labels[k].stop, labels[k + 1].start - 3)
  {
    forall k | 0 <= k < |labels| - 1
      ensures AlignBlocks(m, labels, drops)[k + 1].equations == Slice(m.body, labels[k].stop, labels[k + 1].start - 3)
    {
      assert LaterBlocks(m, labels)[k].equations == LaterEquations(m.body, labels, k);
    }
  }

  /** Without a split there is one directive: labelled by the group label
      under `subequations`, else by the label after `\begin{align}`, else by
      the one at the end; its equations are the body without the deleted
      stretches, stripped of surrounding white space for `align`. */
  lemma AlignSingleBlock(m: AlignMatch, labels: seq<LabelMatch>, drops: seq<Span>)
    requires !Splits(m, labels)
    ensures |AlignBlocks(m, labels, drops)| == 1
    ensures AlignBlocks(m, labels, drops)[0].labelName == SingleLabel(m)
    ensures AlignBlocks(m, labels, drops)[0].alignat <==> m.at.Some?
    ensures AlignBlocks(m, labels, drops)[0].equations
      == if m.at.Some? then Kept(m.body, drops, 0) else Strip(Kept(m.body, drops, 0))
  {
  }

  /** Read back line by line, a block is a blank line, the directive's
      opening fence, its `:label:` option when labelled, the environment's
      `\begin`, the lines of the equations, the `\end`, the closing fence and
      the empty piece after the final newline. */
  lemma BlockReadBack(b: Block, columns: Option<string>)
    requires RenderBlock(b, columns).Some?
    requires b.labelName.Some? ==> '\n' !in b.labelName.value
    requires b.alignat ==> '\n' !in columns.value
    ensures Lines(RenderBlock(b, columns).value)
      == ["", "```{math}"] + LabelOption(b.labelName)
         + ([BeginLine(b.alignat, columns)] + Lines(b.equations) + [EndLine(b.alignat), "```", ""])
  {
    BlockText(b, columns);
    BeginNoNewline(b.alignat, columns);
    BlockLines(b.labelName, BeginLine(b.alignat, columns), b.equations, EndLine(b.alignat));
  }

  lemma BlockLines(l: Option<string>, begin: string, eqs: string, end: string)
    requires l.Some? ==> '\n' !in l.value
    requires '\n' !in begin && '\n' !in end
    ensures Lines("" + "\n" + ("```{math}" + "\n" + (LabelLine(l) + (begin + "\n" + (eqs + "\n" + (end + "\n" + ("```" + "\n" + "")))))))
      == ["", "```{math}"] + LabelOption(l) + ([begin] + Lines(eqs) + [end, "```", ""])
  {
    var env := begin + "\n" + (eqs + "\n" + (end + "\n" + ("```" + "\n" + "")));
    EnvironmentLines(begin, eqs, end);
    LabelLines(l, env);
    OpenLines(LabelLine(l) + env, LabelOption(l), [begin] + Lines(eqs) + [end, "```", ""]);
  }

  /** The `:label:` option line of a labelled block. */
  function LabelOption(l: Option<string>): seq<string> {
    if l.Some? then [":label: " + l.value] else []
  }

  lemma BlockText(b: Block, columns: Option<string>)
    requires RenderBlock(b, columns).Some?
    ensures RenderBlock(b, columns).value
      == "" + "\n" + ("```{math}" + "\n" + (LabelLine(b.labelName)
         + (BeginLine(b.alignat, columns) + "\n" + (b.equations + "\n" + (EndLine(b.alignat) + "\n" + ("```" + "\n" + ""))))))
  {
    var nl := "\n";
    var env := BeginLine(b.alignat, columns) + nl + (b.equations + nl + (EndLine(b.alignat) + nl + ("```" + nl + "")));
    assert Environment(b.alignat, columns, b.equations) == Some(env) by {
      EnvironmentLayout(nl, BeginLine(b.alignat, columns), b.equations, EndLine(b.alignat), "```");
    }
    assert RenderBlock(b, columns) == Some(MathOpen + LabelLine(b.labelName) + env);
    assert MathOpen == nl + "```{math}" + nl;
    OpenLayout(nl, "```{math}", LabelLine(b.labelName), env);
  }

  lemma OpenLines(rest: string, labelLines: seq<string>, mid: seq<string>)
    requires Lines(rest) == labelLines + mid
    ensures Lines("" + "\n" + ("```{math}" + "\n" + rest)) == ["", "```{math}"] + labelLines + mid
  {
    LinesCons("", "```{math}" + "\n" + rest);
    LinesCons("```{math}", rest);
  }

  lemma BeginNoNewline(alignat: bool, columns: Option<string>)
    requires alignat ==> columns.Some? && '\n' !in columns.value
    ensures '\n' !in BeginLine(alignat, columns)
  {
  }

  lemma EnvironmentLines(begin: string, eqs: string, end: string)
    requires '\n' !in begin && '\n' !in end
    ensures Lines(begin + "\n" + (eqs + "\n" + (end + "\n" + ("```" + "\n" + ""))))
      == [begin] + Lines(eqs) + [end, "```", ""]
  {
    var nl := "\n";
    var tail := end + nl + ("```" + nl + "");
    calc {
      Lines(begin + nl + (eqs + nl + tail));
      { LinesCons(begin, eqs + nl + tail); }
      [begin] + Lines(eqs + nl + tail);
      { LinesJoin(eqs, tail); }
      [begin] + (Lines(eqs) + Lines(tail));
      { LinesCons(end, "```" + nl + ""); LinesCons("```", ""); LinesSingle(""); }
      [begin] + (Lines(eqs) + ([end] + (["```"] + [""])));
      [begin] + Lines(eqs) + [end, "```", ""];
    }
  }

  lemma LabelLines(l: Option<string>, env: string)
    requires l.Some? ==> '\n' !in l.value
    ensures Lines(LabelLine(l) + env) == LabelOption(l) + Lines(env)
  {
    if l.Some? {
      var t := ":label: " + l.value;
      assert '\n' !in ":label: ";
      LabelLayout("\n", ":label: ", l.value, env);
      LinesCons(t, env);
    } else {
      assert LabelLine(l) + env == env;
    }
  }

  lemma EnvironmentLayout(nl: string, begin: string, eqs: string, end: string, fence: string)
    ensures begin + nl + eqs + nl + end + nl + fence + nl == begin + nl + (eqs + nl + (end + nl + (fence + nl + "")))
  {
  }

  lemma LabelLayout(nl: string, key: string, l: string, env: string)
    ensures key + l + nl + env == (key + l) + nl + env
  {
  }

  lemma OpenLayout(nl: string, open: string, lab: string, env: string)
    ensures (nl + open + nl) + lab + env == "" + nl + (open + nl + (lab + env))
  {
  }

  function BeginLine(alignat: bool, columns: Option<string>): string
    requires alignat ==> columns.Some?
  {
    if alignat then "\\begin{alignat*}" + columns.value else "\\begin{align*}"
  }

  function EndLine(alignat: bool): string {
    if alignat then "\\end{alignat*}" else "\\end{align*}"
  }

  // ---------------------------------------------------------------------------
  // The alignat test of a split, as written and as intended

  /** As written, a split `alignat` gives `alignat*` only to its first block;
      the later ones get `align*` unless a label stood in front of the
      environment. */
  lemma SplitAlignatAsWritten(m: AlignMatch, labels: seq<LabelMatch>, drops: seq<Span>)
    requires Splits(m, labels) && m.at.Some? && m.groupLabel.None?
    ensures AlignBlocks(m, labels, drops)[0].alignat
    ensures forall k :: 1 <= k < |AlignBlocks(m, labels, drops)| ==> !AlignBlocks(m, labels, drops)[k].alignat
  {
  }

  /** A concrete split `alignat` whose second block loses its column count. */
  lemma SplitAlignatExample()
    ensures var m := AlignMatch("", None, None, None, Some("at"), Some("{2}"), Some("a"), "x &= 1 \\\\\n\\label{b}\ny &= 2", None);
            var bs := AlignBlocks(m, [LabelMatch(10, 20, "b")], []);
            |bs| == 2 && bs[0].alignat && !bs[1].alignat
  {
  }

  /** The blocks as intended: every block of a split `alignat` holds an
      `alignat*` with the column count, as the first one does. */
  function IntendedAlignBlocks(m: AlignMatch, labels: seq<LabelMatch>, drops: seq<Span>): (r: seq<Block>)
    ensures |r| == |AlignBlocks(m, labels, drops)|
  {
    var bs := AlignBlocks(m, labels, drops);
    seq(|bs|, i requires 0 <= i < |bs| => bs[i].(alignat := m.at.Some?))
  }

  /** As intended, every block agrees with the environment: `alignat*`
      exactly for an `alignat`, and the labels and equations are those of the
      source's blocks. */
  lemma IntendedSplitUniform(m: AlignMatch, labels: seq<LabelMatch>, drops: seq<Span>)
    ensures forall i :: 0 <= i < |IntendedAlignBlocks(m, labels, drops)| ==>
      (IntendedAlignBlocks(m, labels, drops)[i].alignat <==> m.at.Some?)
      && IntendedAlignBlocks(m, labels, drops)[i].labelName == AlignBlocks(m, labels, drops)[i].labelName
      && IntendedAlignBlocks(m, labels, drops)[i].equations == AlignBlocks(m, labels, drops)[i].equations
    ensures m.at.Some? && m.columns.Some? ==> Render(IntendedAlignBlocks(m, labels, drops), m.columns).Some?
  {
  }
}

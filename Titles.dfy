/** The heading callbacks. `\chapter{..}` becomes a level-1 Markdown heading
    and `\section`, `\subsection` and `\subsubsection` become level 2, 3 and 4
    headings; a `\label{..}` right after the title becomes a MyST target line
    `(label)=` in front of the heading. The regular expressions that find the
    commands are not modelled: their captured groups are the input. */
module Titles {
  import opened Strings
  import opened LinePasses

  /** The groups of a `\chapter` match: the bracketed short title (group 1,
      which the callback ignores), the title (group 2) and the label name
      (group 4, present exactly when group 3 is). */
  datatype ChapterMatch = ChapterMatch(short: Option<string>, title: string, labelName: Option<string>)

  /** The groups of a `\section` match: the `sub`/`subsub` prefix (group 1),
      the short title (group 3, present exactly when group 2 is), the title
      (group 4) and the label name (group 6, present exactly when group 5 is). */
  datatype SectionMatch = SectionMatch(prefix: Option<string>, short: Option<string>, title: string, labelName: Option<string>)

  /** The MyST target line, when there is a label. */
  function Target(labelName: Option<string>): string {
    if labelName.Some? then "(" + labelName.value + ")=" + "\n" else ""
  }

  /** The extra `#` a sub- or subsubsection gets in front of `## `. */
  function ExtraHashes(prefix: Option<string>): string {
    if prefix == Some("sub") then "#" else if prefix == Some("subsub") then "##" else ""
  }

  /** The title a section heading shows: the short one when it is given. */
  function Shown(m: SectionMatch): string {
    if m.short.Some? then m.short.value else m.title
  }

  function ChapterTitleReplace(m: ChapterMatch): (r: string)
    ensures |r| == |Target(m.labelName)| + 3 + |m.title|
  {
    Target(m.labelName) + "# " + m.title + "\n"
  }

  function SectionTitleReplace(m: SectionMatch): (r: string)
    ensures |r| == |Target(m.labelName)| + |ExtraHashes(m.prefix)| + 4 + |Shown(m)|
  {
    Target(m.labelName) + ExtraHashes(m.prefix) + "## " + Shown(m) + "\n"
  }

  // ---------------------------------------------------------------------------
  // Reading a heading back

  /** The Markdown level of a section heading. */
  function SectionLevel(prefix: Option<string>): nat {
    if prefix == Some("sub") then 3 else if prefix == Some("subsub") then 4 else 2
  }

  /** The number of `#` at the start of `s`. */
  function HashCount(s: string): (k: nat)
    ensures k <= |s|
    ensures forall i :: 0 <= i < k ==> s[i] == '#'
    ensures k < |s| ==> s[k] != '#'
  {
    if s != [] && s[0] == '#' then 1 + HashCount(s[1..]) else 0
  }

  /** How Markdown reads a heading line: its level (the number of leading
      `#`, at least one, followed by a space) and its text. */
  function ReadHeading(line: string): Option<(nat, string)> {
    var k := HashCount(line);
    if 0 < k < |line| && line[k] == ' ' then Some((k, line[k + 1..])) else None
  }

  /** How MyST reads a target line `(name)=`. */
  function ReadTarget(line: string): Option<string> {
    if |line| >= 3 && line[0] == '(' && line[|line| - 2..] == ")=" then Some(line[1..|line| - 2]) else None
  }

  /** A heading line of the given level. */
  function HeadingLine(level: nat, text: string): string {
    Repeat('#', level) + " " + text
  }

  lemma {:induction false} HashCountRepeat(n: nat, rest: string)
    requires rest == [] || rest[0] != '#'
    ensures HashCount(Repeat('#', n) + rest) == n
    decreases n
  {
    if n > 0 {
      var s := Repeat('#', n) + rest;
      assert s[1..] == Repeat('#', n - 1) + rest;
      HashCountRepeat(n - 1, rest);
    } else {
      assert Repeat('#', 0) + rest == rest;
    }
  }

  /** A heading line reads back as its level and its text. */
  lemma HeadingRoundTrip(level: nat, text: string)
    requires level > 0
    ensures ReadHeading(HeadingLine(level, text)) == Some((level, text))
  {
    var line := HeadingLine(level, text);
    HashCountRepeat(level, " " + text);
    assert line == Repeat('#', level) + (" " + text);
    assert line[level + 1..] == text;
  }

  /** A target line reads back as its label. */
  lemma TargetRoundTrip(labelName: string)
    ensures ReadTarget("(" + labelName + ")=") == Some(labelName)
  {
    var line := "(" + labelName + ")=";
    assert line[|line| - 2..] == ")=";
    assert line[1..|line| - 2] == labelName;
  }

  /** The lines of a heading: the target line when there is a label, the
      heading line, and the empty piece after the final newline. */
  function HeadingLines(labelName: Option<string>, level: nat, text: string): seq<string> {
    (if labelName.Some? then ["(" + labelName.value + ")="] else []) + [HeadingLine(level, text), ""]
  }

  lemma HeadingText(labelName: Option<string>, hashes: string, text: string, level: nat)
    requires hashes == Repeat('#', level)
    requires labelName.Some? ==> '\n' !in labelName.value
    requires '\n' !in text
    ensures Lines(Target(labelName) + hashes + " " + text + "\n") == HeadingLines(labelName, level, text)
  {
    var h := HeadingLine(level, text);
    HeadingNoNewline(level, text);
    TargetLines(labelName, h);
    assert h == hashes + " " + text;
    HeadingLayout(Target(labelName), hashes, " ", text, "\n");
  }

  lemma HeadingLayout(t: string, hashes: string, sp: string, text: string, nl: string)
    ensures t + hashes + sp + text + nl == t + (hashes + sp + text) + nl
  {
  }

  lemma HeadingNoNewline(level: nat, text: string)
    requires '\n' !in text
    ensures '\n' !in HeadingLine(level, text)
  {
    assert '\n' !in Repeat('#', level);
  }

  lemma TargetLines(labelName: Option<string>, h: string)
    requires labelName.Some? ==> '\n' !in labelName.value
    requires '\n' !in h
    ensures Lines(Target(labelName) + h + "\n") == (if labelName.Some? then ["(" + labelName.value + ")="] else []) + [h, ""]
  {
    assert Lines(h + "\n" + "") == [h, ""] by {
      LinesCons(h, "");
      LinesSingle("");
    }
    if labelName.Some? {
      var t := "(" + labelName.value + ")=";
      assert '\n' !in "(" && '\n' !in ")=";
      TargetLayout("\n", "(", labelName.value, ")=", h);
      LinesCons(t, h + "\n" + "");
    } else {
      assert Target(labelName) + h + "\n" == h + "\n" + "";
    }
  }

  lemma TargetLayout(nl: string, open: string, l: string, close: string, h: string)
    ensures open + l + close + nl + h + nl == (open + l + close) + nl + (h + nl + "")
  {
  }

  /** A chapter heading, read back line by line, is the chapter's target
      line when it has a label, then a level-1 heading with its title. */
  lemma ChapterReadBack(m: ChapterMatch)
    requires m.labelName.Some? ==> '\n' !in m.labelName.value
    requires '\n' !in m.title
    ensures Lines(ChapterTitleReplace(m)) == HeadingLines(m.labelName, 1, m.title)
    ensures ReadHeading(HeadingLine(1, m.title)) == Some((1, m.title))
    ensures m.labelName.Some? ==> ReadTarget(Lines(ChapterTitleReplace(m))[0]) == m.labelName
  {
    assert "#" == Repeat('#', 1);
    assert ChapterTitleReplace(m) == Target(m.labelName) + "#" + " " + m.title + "\n";
    HeadingText(m.labelName, "#", m.title, 1);
    HeadingRoundTrip(1, m.title);
    if m.labelName.Some? { TargetRoundTrip(m.labelName.value); }
  }

  lemma SectionHashes(prefix: Option<string>)
    ensures ExtraHashes(prefix) + "##" == Repeat('#', SectionLevel(prefix))
  {
  }

  /** A section heading, read back line by line, is the target line when the
      section has a label, then a heading of level 2, 3 or 4 for a section,
      subsection or subsubsection, showing the short title when one is given. */
  lemma SectionReadBack(m: SectionMatch)
    requires m.labelName.Some? ==> '\n' !in m.labelName.value
    requires '\n' !in Shown(m)
    ensures Lines(SectionTitleReplace(m)) == HeadingLines(m.labelName, SectionLevel(m.prefix), Shown(m))
    ensures ReadHeading(HeadingLine(SectionLevel(m.prefix), Shown(m))) == Some((SectionLevel(m.prefix), Shown(m)))
    ensures m.labelName.Some? ==> ReadTarget(Lines(SectionTitleReplace(m))[0]) == m.labelName
  {
    var hashes := ExtraHashes(m.prefix) + "##";
    SectionHashes(m.prefix);
    assert SectionTitleReplace(m) == Target(m.labelName) + hashes + " " + Shown(m) + "\n";
    HeadingText(m.labelName, hashes, Shown(m), SectionLevel(m.prefix));
    HeadingRoundTrip(SectionLevel(m.prefix), Shown(m));
    if m.labelName.Some? { TargetRoundTrip(m.labelName.value); }
  }

  /** The chapter callback ignores the bracketed short title. */
  lemma ChapterIgnoresShortTitle(m: ChapterMatch, short: Option<string>)
    ensures ChapterTitleReplace(m.(short := short)) == ChapterTitleReplace(m)
  {
  }
}

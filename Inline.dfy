/** The small callbacks of the conversion: opening quotes, straight
    differentials, figure paths, theorem-like environments, citations,
    itemize bullets and index entries. The regular expressions that find
    them are not modelled, except the quote pass, whose pattern (a maximal
    run of backticks) is written out. */
module Inline {
  import opened Strings
  import opened LinePasses

  // ---------------------------------------------------------------------------
  // Opening quotes

  /** `QuotesReplace`: a run of one or two backticks (LaTeX opening quotes)
      becomes as many straight quotes; a longer run is a code fence and is
      kept. */
  function QuotesReplace(run: string): (r: string)
    ensures |r| == |run|
  {
    if |run| == 1 then "'" else if |run| == 2 then "''" else run
  }

  /** The length of the run of `c` at the start of `s`. */
  function RunLength(s: string, c: char): (k: nat)
    ensures k <= |s|
    ensures forall i :: 0 <= i < k ==> s[i] == c
    ensures k < |s| ==> s[k] != c
  {
    if s != [] && s[0] == c then 1 + RunLength(s[1..], c) else 0
  }

  /** The quote pass: every maximal run of backticks, leftmost first, goes
      through `QuotesReplace`. It keeps the length and every other
      character. */
  function Quotes(s: string): (r: string)
    ensures |r| == |s|
    ensures forall i :: 0 <= i < |s| && s[i] != '`' ==> r[i] == s[i]
    decreases |s|
  {
    if s == [] then []
    else
      var k := RunLength(s, '`');
      if k == 0 then [s[0]] + Quotes(s[1..])
      else
        var t := Quotes(s[k..]);
        assert forall i :: k <= i < |s| ==> s[i] == s[k..][i - k];
        QuotesReplace(s[..k]) + t
  }

  /** Text without backticks goes through the pass unchanged. */
  lemma {:induction false} QuotesPlain(a: string, t: string)
    requires '`' !in a
    ensures Quotes(a + t) == a + Quotes(t)
    decreases |a|
  {
    if a != [] {
      assert '`' !in a[1..] by {
        forall i | 0 <= i < |a[1..]| ensures a[1..][i] != '`' {
          assert a[1..][i] == a[i + 1] && a[i + 1] in a;
        }
      }
      assert a[0] in a;
      QuotesPlain(a[1..], t);
      ConsLayout(a, t);
      QuotesCons(a[0], a[1..] + t);
      ConsLayout(a, Quotes(t));
    } else {
      assert a + t == t && a + Quotes(t) == Quotes(t);
    }
  }

  lemma ConsLayout(a: string, x: string)
    requires a != []
    ensures a + x == [a[0]] + (a[1..] + x)
  {
    assert a == [a[0]] + a[1..];
  }

  /** A character other than a backtick is kept in front of the rest. */
  lemma QuotesCons(c: char, u: string)
    requires c != '`'
    ensures Quotes([c] + u) == [c] + Quotes(u)
  {
    var s := [c] + u;
    assert s[0] == c && s[1..] == u;
    assert RunLength(s, '`') == 0;
  }

  /** The run at the start of a run of `c` followed by something else. */
  lemma {:induction false} RunLengthOf(a: string, c: char, t: string)
    requires forall i :: 0 <= i < |a| ==> a[i] == c
    requires t == [] || t[0] != c
    ensures RunLength(a + t, c) == |a|
    decreases |a|
  {
    if a != [] {
      assert (a + t)[1..] == a[1..] + t;
      RunLengthOf(a[1..], c, t);
    } else {
      assert a + t == t;
    }
  }

  /** The pass is idempotent: after it, every backtick left belongs to a
      run of three or more, which the pass keeps. */
  lemma {:induction false} QuotesIdempotent(s: string)
    ensures Quotes(Quotes(s)) == Quotes(s)
    decreases |s|
  {
    if s != [] {
      var k := RunLength(s, '`');
      var r := Quotes(s);
      if k == 0 {
        assert r == [s[0]] + Quotes(s[1..]);
        QuotesIdempotent(s[1..]);
        QuotesPlain([s[0]], Quotes(s[1..]));
      } else {
        var t := Quotes(s[k..]);
        assert r == QuotesReplace(s[..k]) + t;
        QuotesIdempotent(s[k..]);
        if k <= 2 {
          assert '`' !in QuotesReplace(s[..k]);
          QuotesPlain(QuotesReplace(s[..k]), t);
        } else {
          assert t == [] || t[0] == s[k];
          RunLengthOf(s[..k], '`', t);
          assert r[..k] == s[..k] && r[k..] == t;
        }
      }
    }
  }

  /** One or two backticks become straight quotes. */
  lemma QuotesShortRun(run: string, t: string)
    requires 1 <= |run| <= 2 && forall i :: 0 <= i < |run| ==> run[i] == '`'
    requires t == [] || t[0] != '`'
    ensures Quotes(run + t) == Repeat('\'', |run|) + Quotes(t)
  {
    RunLengthOf(run, '`', t);
    assert (run + t)[..|run|] == run && (run + t)[|run|..] == t;
  }

  // ---------------------------------------------------------------------------
  // Straight differentials

  /** `StraightdReplace`: `\dd` and the word character or space after it
      (group 1). */
  function StraightdReplace(next: Option<char>): string {
    if next == Some('o') then "\\ddo"
    else if next.Some? && next.value != ' ' then "\\mathrm{d}" + [next.value]
    else "\\mathrm{d}"
  }

  /** The text the pattern matched. */
  function StraightdMatch(next: Option<char>): string {
    "\\dd" + (if next.Some? then [next.value] else "")
  }

  /** `\dd` becomes an upright d: the character after it is kept, a space is
      dropped, and `\ddo` (the start of `\ddot`) is left as it was. */
  lemma StraightdMeaning(next: Option<char>)
    ensures next == Some('o') ==> StraightdReplace(next) == StraightdMatch(next)
    ensures next != Some('o') && next != Some(' ') ==>
      StraightdReplace(next) == "\\mathrm{d}" + StraightdMatch(next)[3..]
    ensures next == Some(' ') ==> StraightdReplace(next) == "\\mathrm{d}"
  {
    var m := StraightdMatch(next);
    assert m[3..] == (if next.Some? then [next.value] else "");
  }

  // ---------------------------------------------------------------------------
  // Figure paths

  /** `NewFigurePath`: the figure moves to the `images` folder and every
      `.pdf` becomes `.svg`. */
  function NewFigurePath(oldPath: string): (r: string)
    ensures |r| == 7 + |oldPath|
  {
    "images/" + ReplaceAll(oldPath, ".pdf", ".svg")
  }

  /** No `.pdf` is left in the renamed path. */
  lemma NoPdfLeft(oldPath: string)
    ensures forall k :: !OccursAt(ReplaceAll(oldPath, ".pdf", ".svg"), ".pdf", k)
  {
    var parts := SplitOn(oldPath, ".pdf");
    JoinedWithSvg(parts);
  }

  lemma {:induction false} JoinedWithSvg(parts: seq<string>)
    requires forall i, k :: 0 <= i < |parts| ==> !OccursAt(parts[i], ".pdf", k)
    ensures forall k :: !OccursAt(JoinWith(parts, ".svg"), ".pdf", k)
    decreases |parts|
  {
    if |parts| > 1 {
      JoinedWithSvg(parts[1..]);
      var p, tail := parts[0], JoinWith(parts[1..], ".svg");
      assert forall k :: !OccursAt(p, ".pdf", k);
      forall k: nat ensures !OccursAt(p + ".svg" + tail, ".pdf", k) {
        SvgWindow(p, tail, k);
      }
    }
  }

  /** `.pdf` does not occur across a `.svg` between two texts without it. */
  lemma SvgWindow(p: string, tail: string, k: nat)
    requires forall j :: !OccursAt(p, ".pdf", j)
    requires forall j :: !OccursAt(tail, ".pdf", j)
    ensures !OccursAt(p + ".svg" + tail, ".pdf", k)
  {
    var s := p + ".svg" + tail;
    if k + 4 <= |s| {
      var w := s[k..k + 4];
      if k + 4 <= |p| {
        assert w == p[k..k + 4];
        assert !OccursAt(p, ".pdf", k);
      } else if k < |p| {
        assert w[|p| - k] == s[|p|] == '.';
        PdfTail(w, |p| - k);
      } else if k < |p| + 4 {
        assert w[0] == ".svg"[k - |p|];
        assert w[1] == s[k + 1];
        SvgWindowInside(w, k - |p|);
      } else {
        assert w == tail[k - |p| - 4..k - |p|];
        assert !OccursAt(tail, ".pdf", k - |p| - 4);
      }
    }
  }

  /** No character after the first of `.pdf` is a dot. */
  lemma PdfTail(w: string, d: nat)
    requires |w| == 4 && 0 < d < 4 && w[d] == '.'
    ensures w != ".pdf"
  {
  }

  /** A window starting inside `.svg` is not `.pdf`. */
  lemma SvgWindowInside(w: string, d: nat)
    requires |w| == 4 && d < 4 && w[0] == ".svg"[d]
    requires d == 0 ==> w[1] == 's'
    ensures w != ".pdf"
  {
  }

  /** A figure saved as PDF is looked for as SVG in the images folder. */
  lemma PdfFigure(stem: string)
    requires forall k :: !OccursAt(stem, ".pdf", k)
    ensures NewFigurePath(stem + ".pdf") == "images/" + stem + ".svg"
  {
    var s := stem + ".pdf";
    assert OccursAt(s, ".pdf", |stem|) by { assert s[|stem|..|stem| + 4] == ".pdf"; }
    forall j | 0 <= j < |stem| ensures !OccursAt(s, ".pdf", j) {
      if j + 4 <= |s| {
        var w := s[j..j + 4];
        if j + 4 <= |stem| {
          assert w == stem[j..j + 4];
          assert !OccursAt(stem, ".pdf", j);
        } else {
          assert w[|stem| - j] == s[|stem|] == '.';
          PdfTail(w, |stem| - j);
        }
      }
    }
    IndexOfFirst(s, ".pdf", 0, |stem|);
    assert s[..|stem|] == stem;
    assert s[|stem| + 4..] == "";
    assert IndexOf("", ".pdf", 0) == None;
    assert SplitOn(s, ".pdf") == [stem, ""];
  }

  /** A path without `.pdf` only moves to the images folder. */
  lemma OtherFigure(oldPath: string)
    requires forall k :: !OccursAt(oldPath, ".pdf", k)
    ensures NewFigurePath(oldPath) == "images/" + oldPath
  {
  }

  // ---------------------------------------------------------------------------
  // Theorem-like environments

  /** The groups of a theorem match: the environment (group 1), the
      bracketed title (group 4, present exactly when group 3 is), the label
      name (group 6, present exactly when group 5 is) and the body (group 7). */
  datatype TheoremMatch = TheoremMatch(kind: string, title: Option<string>, labelName: Option<string>, body: string)

  /** What follows the directive name on its opening line. */
  function TitleArgument(m: TheoremMatch): string {
    if m.title.Some? then " " + m.title.value else ""
  }

  /** The opening line of the `prf` directive. */
  function OpeningLine(m: TheoremMatch): string {
    "```{prf:" + m.kind + "}" + TitleArgument(m)
  }

  /** The `:label:` option line, when there is a label. */
  function LabelLines(m: TheoremMatch): seq<string> {
    if m.labelName.Some? then [":label: " + m.labelName.value] else []
  }

  /** `TheoremReplace`. */
  function TheoremReplace(m: TheoremMatch): string {
    "```{prf:" + m.kind + "}" + (if m.title.Some? then " " + m.title.value else "") + "\n"
    + (if m.labelName.Some? then ":label: " + m.labelName.value + "\n" else "")
    + m.body + "```\n"
  }

  /** How MyST reads the opening line of a directive: the name in braces
      after the backticks and the argument after the brace. */
  function ReadOpening(line: string): Option<(string, string)> {
    if |line| >= 4 && line[..4] == "```{" then
      var parts := SplitOn(line[4..], "}");
      if |parts| >= 2 && 5 + |parts[0]| <= |line| then Some((parts[0], line[5 + |parts[0]|..])) else None
    else None
  }

  /** The environment's lines: the opening line, the label option, then the
      body followed by the closing fence. */
  lemma TheoremLines(m: TheoremMatch)
    requires '\n' !in m.kind
    requires m.title.Some? ==> '\n' !in m.title.value
    requires m.labelName.Some? ==> '\n' !in m.labelName.value
    ensures Lines(TheoremReplace(m)) == [OpeningLine(m)] + LabelLines(m) + Lines(m.body + "```\n")
  {
    OpeningNoNewline(m);
    var open, tail := OpeningLine(m), m.body + "```\n";
    if m.labelName.Some? {
      LabelledTheoremLines(open, m.labelName.value, m.body);
      assert TheoremReplace(m) == open + "\n" + (":label: " + m.labelName.value + "\n") + m.body + "```\n";
    } else {
      assert TheoremReplace(m) == open + "\n" + "" + m.body + "```\n";
      UnlabelledTheoremLines(open, m.body);
    }
  }

  lemma OpeningNoNewline(m: TheoremMatch)
    requires '\n' !in m.kind
    requires m.title.Some? ==> '\n' !in m.title.value
    ensures '\n' !in OpeningLine(m)
  {
    assert '\n' !in "```{prf:" && '\n' !in "}" && '\n' !in " ";
  }

  lemma LabelledTheoremLines(open: string, l: string, body: string)
    requires '\n' !in open && '\n' !in l
    ensures Lines(open + "\n" + (":label: " + l + "\n") + body + "```\n")
      == [open] + [":label: " + l] + Lines(body + "```\n")
  {
    var tail := body + "```\n";
    var option := ":label: " + l;
    assert '\n' !in option by { assert '\n' !in ":label: "; }
    TheoremLayout(open, option, body, "\n", "```\n");
    LinesCons(option, tail);
    LinesCons(open, option + "\n" + tail);
  }

  lemma UnlabelledTheoremLines(open: string, body: string)
    requires '\n' !in open
    ensures Lines(open + "\n" + "" + body + "```\n") == [open] + [] + Lines(body + "```\n")
  {
    assert open + "\n" + "" + body + "```\n" == open + "\n" + (body + "```\n");
    LinesCons(open, body + "```\n");
  }

  lemma TheoremLayout(open: string, option: string, body: string, nl: string, close: string)
    ensures open + nl + (option + nl) + body + close == open + nl + (option + nl + (body + close))
  {
  }

  /** The opening line reads back as the `prf:` directive of the environment,
      with its title as the argument. */
  lemma TheoremOpening(m: TheoremMatch)
    requires '}' !in m.kind
    ensures ReadOpening(OpeningLine(m)) == Some(("prf:" + m.kind, TitleArgument(m)))
  {
    var line, name := OpeningLine(m), "prf:" + m.kind;
    assert '}' !in name by { assert '}' !in "prf:"; }
    assert line[..4] == "```{";
    assert line[4..] == name + ['}'] + TitleArgument(m);
    SplitFirst(name, '}', TitleArgument(m));
    assert line[5 + |name|..] == TitleArgument(m);
  }

  // ---------------------------------------------------------------------------
  // Citations

  /** `CitationReplace`: the space or `~` in front of `\cite{keys}` (group
      1) is kept and the keys (group 2) become a `{cite}` role. */
  function CitationReplace(lead: string, keys: string): string {
    lead + "{cite}`" + keys + "`"
  }

  /** Split at its backticks, a citation is the kept text with the role
      name, the keys exactly as given, and nothing after the role. */
  lemma CitationKeys(lead: string, keys: string)
    requires '`' !in lead && '`' !in keys
    ensures SplitOn(CitationReplace(lead, keys), "`") == [lead + "{cite}", keys, ""]
  {
    assert '`' !in lead + "{cite}" by { assert '`' !in "{cite}"; }
    assert CitationReplace(lead, keys) == (lead + "{cite}") + ['`'] + (keys + ['`'] + "");
    SplitFirst(lead + "{cite}", '`', keys + ['`'] + "");
    SplitFirst(keys, '`', "");
    SplitAbsent("", '`');
  }

  // ---------------------------------------------------------------------------
  // Itemize bullets

  /** `ItemizeItemReplace`: `\item` becomes a bullet, `\item[label]` a
      bullet with the label in bold. */
  function ItemizeItemReplace(itemLabel: Option<string>): string {
    if itemLabel.Some? then "- **" + itemLabel.value + "**" else "-"
  }

  /** How a bullet is read back: a bare `-`, or `- **label**`. */
  function ReadBullet(line: string): Option<Option<string>> {
    if line == "-" then Some(None)
    else if |line| >= 6 && line[..4] == "- **" && line[|line| - 2..] == "**" then Some(Some(line[4..|line| - 2]))
    else None
  }

  lemma BulletRoundTrip(itemLabel: Option<string>)
    ensures ReadBullet(ItemizeItemReplace(itemLabel)) == Some(itemLabel)
  {
    if itemLabel.Some? {
      var line := ItemizeItemReplace(itemLabel);
      assert line[..4] == "- **";
      assert line[|line| - 2..] == "**";
      assert line[4..|line| - 2] == itemLabel.value;
    }
  }

  // ---------------------------------------------------------------------------
  // Index entries

  /** The entry of `\index{arg}`: the part before any `|` (a page-range or
      `see` marker), with LaTeX's `!` subentry separator written as MyST's
      ` ; `. */
  function IndexEntry(arg: string): string {
    ReplaceAll(SplitOn(arg, "|")[0], "!", " ; ")
  }

  /** An `index` directive block. */
  function IndexBlock(entries: string): string {
    "```{index} " + entries + "\n```"
  }

  /** `IndexEntryReplace`: the match runs from the newline before the line
      holding `\index{arg}` (the text in front of it is group 1); the index
      block goes in front of that line. */
  function IndexEntryReplace(before: string, arg: string): string {
    "\n\n```{index} " + IndexEntry(arg) + "\n```\n" + before
  }

  /** `CombineIndexEntries`: two adjacent index blocks become one. */
  function CombineIndexEntries(first: string, second: string): string {
    "```{index} " + first + ", " + second + "\n```"
  }

  /** The text of two adjacent index blocks, as the pattern matches it. */
  function AdjacentBlocks(first: string, second: string): string {
    "```{index} " + first + "\n```\n\n```{index} " + second + "\n```"
  }

  /** The entries of an index block, as MyST reads them. */
  function EntryList(entries: string): seq<string> {
    SplitOn(entries, ", ")
  }

  /** An index entry is put as its own block in front of the line it was on. */
  lemma IndexEntryShape(before: string, arg: string)
    ensures IndexEntryReplace(before, arg) == "\n\n" + IndexBlock(IndexEntry(arg)) + "\n" + before
  {
  }

  /** An entry holds neither a `!` nor a `|`. */
  lemma EntryClean(arg: string)
    ensures '!' !in IndexEntry(arg) && '|' !in IndexEntry(arg)
  {
    var bars := SplitOn(arg, "|");
    NoCharInPieces(bars, '|');
    var bangs := SplitOn(bars[0], "!");
    NoCharInPieces(bangs, '!');
    CharOfPiece(bangs, "!", '|');
    JoinWithoutChar(bangs, " ; ", '!');
    JoinWithoutChar(bangs, " ; ", '|');
  }

  /** A plain entry is kept as it is. */
  lemma PlainEntry(arg: string)
    requires '!' !in arg && '|' !in arg
    ensures IndexEntry(arg) == arg
  {
    SplitAbsent(arg, '|');
    SplitAbsent(arg, '!');
  }

  /** A subentry `main!sub` becomes `main ; sub`. */
  lemma Subentry(main: string, sub: string)
    requires '!' !in main && '|' !in main && '!' !in sub && '|' !in sub
    ensures IndexEntry(main + "!" + sub) == main + " ; " + sub
  {
    var arg := main + "!" + sub;
    assert '|' !in arg;
    SplitAbsent(arg, '|');
    SplitFirst(main, '!', sub);
    SplitAbsent(sub, '!');
    assert SplitOn(arg, "!") == [main, sub];
    assert JoinWith([main, sub], " ; ") == main + " ; " + JoinWith([sub], " ; ");
  }

  /** What follows a `|` does not reach the index. */
  lemma EntryDropsRange(arg: string, range: string)
    requires '|' !in arg
    ensures IndexEntry(arg + "|" + range) == IndexEntry(arg)
  {
    SplitFirst(arg, '|', range);
    SplitAbsent(arg, '|');
  }

  /** Combining two adjacent blocks gives one block whose entries are those
      of the first followed by those of the second. */
  lemma CombinedEntries(first: string, second: string)
    ensures CombineIndexEntries(first, second) == IndexBlock(first + ", " + second)
    ensures EntryList(first + ", " + second) == EntryList(first) + EntryList(second)
  {
    assert Borderless(", ") by {
      assert ", "[1..] == " " && ", "[..1] == ",";
    }
    SplitJoined(first, second, ", ");
  }

  /** The matched text is exactly two index blocks separated by an empty
      line. */
  lemma AdjacentBlocksShape(first: string, second: string)
    ensures AdjacentBlocks(first, second) == IndexBlock(first) + "\n\n" + IndexBlock(second)
  {
  }
}

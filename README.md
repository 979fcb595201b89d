# latextomarkdown in Dafny

A model of the converter `latextomarkdown.py`, which rewrites a LaTeX book
chapter (with its problems and worked examples) into MyST Markdown for a
Jupyter Book. The converter works on one long string. Regular expressions
find the constructs, two hand-written scanners deal with nested braces and
nested `\if ... \fi` blocks, and most passes record their matches against
the unchanged text before splicing the replacements in from the last match
back to the first.

The model follows that structure, one module per part of the converter:

- `Strings`: the Python string primitives the converter relies on, written
  out. These are clamped slices, `strip`, `split`, `join`, `splitlines`,
  `find`, `replace`, the start indices `re.finditer` reports for a literal
  pattern, and `str(n)`.
- `Splice`: the splice `s[:start] + text + s[end:]` and the back-to-front
  loop all splicing passes end with. It is proved equal to the
  left-to-right replacement of non-overlapping spans.
- `Scanners`: `FindSubstringInBraces` and `FindMatchingEndif`. Each is a
  method with its while loop, proved equal to a recursive specification.
  The conditional scanner's lemmas speak of balanced text (`IfBalanced`).
  Such text is built by the `Nesting` tree from marker-free pieces, which
  hold no `\if`, `\fi` or `\else` but may hold any other command, and from
  nested `\if ... [\else ...] \fi` blocks to any depth.
- `Macros`, `SourceRefs`, `Conditionals`, `Footnotes`, `Commands`: the
  snapshot-then-splice passes. These are the two- and three-argument macros,
  the `[\ref{source}]` citations, the `\if` conditionals, the footnotes and
  the one-argument `\emph`/`\textbf`/`\mbox` commands.
- `Fences`: the fix-up that gives nested admonitions extra backticks.
- `Titles`, `Equations`, `References`, `Tables`, `Derivatives`, `Inline`:
  the match callbacks `ChapterTitleReplace`, `SectionTitleReplace`,
  `EquationReplace`, `AlignReplace`, `RefReplace`, `TableReplace`,
  `dvReplace`, `pdvReplace`, `QuotesReplace`, `StraightdReplace`,
  `NewFigurePath`, `TheoremReplace`, `CitationReplace`,
  `ItemizeItemReplace`, `IndexEntryReplace` and `CombineIndexEntries`. Each takes a record of the captured groups, with
  `Option` for a group that may not have matched. `AlignReplace` and
  `TableReplace` keep their loops as methods.
- `LinePasses`: `FormatFootnoteText` and the indentation of problem files.
- `Assembly`: the worked-example splicing and the problem-section layout of
  `ReadAndConvertLatexContent`.

Each pass keeps its spans as the source computes them. The spans come from
the argument lengths read from the unchanged text, with Python's clamping of
out-of-range slice bounds. Where the converter would raise an exception
(adding `None` to a string, indexing past a list), the model returns `None`
or, for the bare `\if` whose qualifier has no length, states the case as a
precondition.

The regular expressions are not modelled. A pass or callback takes the
matches and their captured groups as input. Where the pattern is a literal
(`\footnote{`, `\name{` of a macro), the matches are computed as the
leftmost non-overlapping occurrences of that literal.

## Model

| member | source | states |
|---|---|---|
| `Scanners.BraceGroup` | latextomarkdown.py:27-42 | the argument the brace scanner reads from just after a `{`: the text up to the `}` that brings the depth below zero, or the rest of the text; `BraceGroupShape`, `BalancedArgument` and `UnclosedArgument` state what it is |
| `Scanners.FindSubstringInBraces` | latextomarkdown.py:27-42 | the while loop returns exactly the brace group `BraceGroup` specifies |
| `Scanners.BraceGroupShape` | latextomarkdown.py:27-42 | "" from `start` at or past the end; otherwise a slice of the text from `start` in which no prefix has more `}` than `{`, ending at the end of the text or before a `}` that closes the group |
| `Scanners.ScanFromStops` | latextomarkdown.py:36-41 | from any depth the scan returns a slice of the text that runs to the end or is followed by a `}` bringing the depth to zero, and inside which no `}` closes the group |
| `Scanners.ScanOver` | latextomarkdown.py:36-41 | text that never closes the group is taken over whole and the scan continues after it at the depth it leaves |
| `Scanners.TransparentNonNegative` | latextomarkdown.py:36-40 | text that never closes the group never takes the depth counter below zero |
| `Scanners.BalancedArgument` | latextomarkdown.py:27-42 | for `w` balanced and followed by `}`, the scanner returns exactly `w` |
| `Scanners.BracedAt` | latextomarkdown.py:27-42 | a balanced argument in braces is read back exactly, started just after its `{` |
| `Scanners.UnclosedArgument` | latextomarkdown.py:27-42 | when balance is never restored the scanner returns the whole remainder |
| `Scanners.ConditionalBranches` | latextomarkdown.py:44-70 | the two branches the conditional scanner returns, with the text after `\else` moved first when the text before it is empty; the `Branches...` lemmas below state them for balanced text |
| `Scanners.FindMatchingEndif` | latextomarkdown.py:44-70 | the while loop returns exactly the pair `ConditionalBranches` specifies |
| `Scanners.EndifScanElseStep` | latextomarkdown.py:57-60 | a top-level `\else` moves the text read so far into the first branch and skips five characters |
| `Scanners.EndifScanCharStep` | latextomarkdown.py:61-66 | any other character is copied, with `\if` raising and `\fi` lowering the depth |
| `Scanners.EndifScanStop` | latextomarkdown.py:56 | the scan stops at a top-level `\fi` or two characters before the end |
| `Scanners.PlainUnmarked` | latextomarkdown.py:56-64 | every `\if`, `\fi` and `\else` starts with a backslash, so text without one holds none of them |
| `Scanners.NoMarkerBeforeBackslash` | latextomarkdown.py:56-64 | no `\if`, `\fi` or `\else` can straddle the end of marker-free text followed by a backslash |
| `Scanners.EndifScanOver` | latextomarkdown.py:56-66 | a prefix where no `\if`, `\fi` or `\else` starts is copied into the current branch and leaves the depth as it was |
| `Scanners.EndifScanFlat` | latextomarkdown.py:56-66 | marker-free text before a backslash is copied into the current branch unchanged, whatever other commands it holds |
| `Scanners.PlainCopied` | latextomarkdown.py:61-66 | text without a backslash is copied whatever follows it |
| `Scanners.OpenStep` | latextomarkdown.py:61-64 | marker-free text and then `\if` are copied and the depth rises by one |
| `Scanners.CloseStep` | latextomarkdown.py:56-65 | a `\fi` below the top level is copied and the depth falls by one |
| `Scanners.ElseStep` | latextomarkdown.py:57-64 | an `\else` below the top level is copied like ordinary text, not taken for the outer one |
| `Scanners.NestedBlock` | latextomarkdown.py:56-66 | balanced text, with nested `\if...\else...\fi` blocks to any depth, is copied whole and leaves the depth as it was |
| `Scanners.WrapCopied` | latextomarkdown.py:56-66 | one nested conditional is copied whole once its parts are |
| `Scanners.BalancedCopied` | latextomarkdown.py:56-66 | the same for any text known to be balanced |
| `Scanners.ScanWithoutElse` | latextomarkdown.py:56-66 | over `x\fi...` with balanced `x`, no `\else` is recorded and `x` is read |
| `Scanners.ScanWithElse` | latextomarkdown.py:56-66 | over `x\else y\fi...` with balanced `x` and `y`, the text before `\else` is recorded as `x` and `y` is read |
| `Scanners.ScanFlatThenFi` | latextomarkdown.py:56-66 | balanced text up to `\fi` is appended to the text read so far, and the recorded first branch is kept |
| `Scanners.BranchesWithoutElse` | latextomarkdown.py:44-70 | with balanced text and no top-level `\else`, the branches are the text up to the matching `\fi` and "" |
| `Scanners.BranchesWithElse` | latextomarkdown.py:44-70 | with non-empty balanced text before a top-level `\else`, the branches are the text before and after it |
| `Scanners.BranchesEmptyThen` | latextomarkdown.py:67-70 | with nothing before the `\else`, the text after it is returned as the first branch and the second is "" |
| `Scanners.BranchesNested` | latextomarkdown.py:44-70 | a nested `\if...\else...\fi` stays inside the first branch with its own `\else`, and the branch runs to the `\fi` matching the outer `\if` |
| `Splice.ApplyEdits` | latextomarkdown.py:731-733 | the back-to-front splicing loop computes `ApplyReverse`, and for ordered non-overlapping spans the left-to-right replacement |
| `Splice.ApplyReverseIsForward` | latextomarkdown.py:731-733 | splicing ordered, non-overlapping spans from the back equals replacing them one after the other from the front, keeping all text between them |
| `Splice.ApplyReverseIsStitched` | latextomarkdown.py:731-733 | the same from the start of the text: the untouched text around the spans is kept |
| `Splice.ApplyReverseAppend` | latextomarkdown.py:731-733 | splicing a list from the back is splicing its later part first, then its earlier part |
| `Splice.ApplyReverseStep` | latextomarkdown.py:731-733 | one turn of the loop: the edit `i` applied to the result of the edits after it |
| `Splice.ApplyInside` | latextomarkdown.py:733 | a splice whose span is exactly `mid` in `p + mid + rest` gives `p + text + rest` |
| `Splice.ApplyBeforeTail` | latextomarkdown.py:733 | a splice that ends where the kept tail starts leaves the tail as it is |
| `Macros.TwoArgumentMacroReplace` | latextomarkdown.py:717-735 | the pass reads both arguments of every call from the unchanged text and splices from the back; with non-overlapping spans the result is the left-to-right replacement |
| `Macros.TwoArgSpan` | latextomarkdown.py:724-733 | with balanced arguments the span is exactly the call, four characters longer than the name and the two arguments together, replaced by `start + a1 + mid + a2 + end` |
| `Macros.TwoArgEditAt` | latextomarkdown.py:724-733 | the second argument is read two characters after the end of the first, and the span length follows from both |
| `Macros.TwoArgumentNoCall` | latextomarkdown.py:729-735 | a text without a call is returned unchanged |
| `Macros.TwoArgumentSingle` | latextomarkdown.py:717-735 | a text with one call has that call replaced and the text around it kept |
| `Macros.ThreeArgumentMacroReplace` | latextomarkdown.py:845-864 | as for two arguments, with the third read four characters after the end of the first two |
| `Macros.ThreeArgSpan` | latextomarkdown.py:852-862 | with balanced arguments the span is exactly the call, six characters longer than the name and the three arguments together |
| `Macros.ThreeArgEditAt` | latextomarkdown.py:852-862 | the three arguments are read at their offsets and give the span length |
| `Macros.ThreeArgumentNoCall` | latextomarkdown.py:858-864 | a text without a call is returned unchanged |
| `Macros.ThreeArgumentSingle` | latextomarkdown.py:845-864 | a text with one call has that call replaced and the text around it kept |
| `SourceRefs.SourceRefReplace` | latextomarkdown.py:700-715 | the loop from the last citation back computes `SourceRefsReplaced`, and for genuine non-overlapping matches it replaces every listed citation by its footnote from left to right |
| `SourceRefs.CitationText` | latextomarkdown.py:713 | a citation `[\ref{key}]` is eight characters longer than its key, the span the splice removes |
| `SourceRefs.SourceLookup` | latextomarkdown.py:710-711 | the lookup fails exactly when no `\item \label{key} ` occurs in the sources, and its description holds no newline |
| `SourceRefs.RestOfLine` | latextomarkdown.py:710 | `(.*)` captures the text up to the next newline or the end |
| `SourceRefs.RestOfLineAt` | latextomarkdown.py:710 | `(.*)` stops at the first newline |
| `SourceRefs.LookupListed` | latextomarkdown.py:710-711 | a listed key is found on its first line and its description is the rest of that line |
| `SourceRefs.LookupAt` | latextomarkdown.py:710-711 | the description is the rest of the line after the first occurrence of the key's prefix |
| `SourceRefs.LookupEmpty` | latextomarkdown.py:970-971 | nothing is found in an empty sources text |
| `SourceRefs.CitationEditsOrdered` | latextomarkdown.py:706-713 | citations in text order give ordered splices |
| `SourceRefs.CitationStep` | latextomarkdown.py:709-713 | one turn of the loop: a listed citation is spliced, an unlisted one left |
| `SourceRefs.NoSourcesUnchanged` | latextomarkdown.py:970-971 | with an empty sources text the pass changes nothing, as the converter's skipping of it assumes |
| `SourceRefs.CitationToFootnote` | latextomarkdown.py:700-715 | a citation of a listed key becomes `\footnote{description}` and the text around it is kept |
| `SourceRefs.CitationUnlisted` | latextomarkdown.py:712-713 | a citation of an unlisted key is left as it is |
| `SourceRefs.LookupKeepsFi` | latextomarkdown.py:710-711 | as written, a description line ending in `\fi` keeps the `\fi` in the footnote |
| `SourceRefs.IntendedSourceLookup` | latextomarkdown.py:710-711 | corrected lookup: found exactly when the source's lookup is, with at most one trailing `\fi` removed |
| `SourceRefs.IntendedLookupDropsFi` | latextomarkdown.py:710-711 | corrected, a description ending in `\fi` is returned without it |
| `Conditionals.KeepsFirst` | latextomarkdown.py:956-967 | the first branch is kept exactly for `Afourpaper`, `choicecolor`, `online`, `containsLagrangianmechanics` and `containsCM`; every other qualifier keeps the second |
| `Conditionals.ResolveAll` | latextomarkdown.py:944-967 | the pass resolves the blocks from the last match to the first, each read from the text the later ones left; `ResolveAllStep`, `ResolveTwoBlocks` and `ResolveNested` state the outcome |
| `Conditionals.ResolveConditionals` | latextomarkdown.py:933-967 | the pass resolves the blocks from the last match to the first, each from the branches the scanner finds in the current text, as `ResolveAll` specifies |
| `Conditionals.ResolveStep` | latextomarkdown.py:947-967 | one turn of the loop: the span runs over `\if`, the qualifier and the first branch, and over `\else` and the second branch when that is not empty, replaced by the kept branch |
| `Conditionals.ResolveAllStep` | latextomarkdown.py:944 | resolving match `i` and then the matches before it is resolving matches `0..i` |
| `Conditionals.ScanOfBlock` | latextomarkdown.py:44-70 | the scan of a block with balanced branches records `\else` exactly when the block has one |
| `Conditionals.BranchesOfBlock` | latextomarkdown.py:44-70 | the branches the scanner reports for a block, in all three cases (no `\else`, non-empty first branch, empty first branch) |
| `Conditionals.BranchesOfEmptyThen` | latextomarkdown.py:67-70 | with an empty first branch the second is reported as the first |
| `Conditionals.ResolveOneSpan` | latextomarkdown.py:952-967 | a block whose branches and surroundings are known is replaced by the kept branch between them |
| `Conditionals.ResolveAfter` | latextomarkdown.py:947-967 | the same for a block starting right after `p` |
| `Conditionals.ResolveWithoutElse` | latextomarkdown.py:944-967 | a block without `\else` becomes its text when the flag keeps the first branch and disappears otherwise |
| `Conditionals.ResolveWithElse` | latextomarkdown.py:944-967 | a block with two non-empty branches becomes the branch its flag selects, and the text around it is kept |
| `Conditionals.ResolveAllTwo` | latextomarkdown.py:944 | with two matches the second is resolved first |
| `Conditionals.ResolveTwoBlocks` | latextomarkdown.py:933-967 | two blocks one after the other are each resolved in their place |
| `Conditionals.ResolveNested` | latextomarkdown.py:933-967 | a block nested in another's first branch is resolved first, and the outer block then reads the kept text in its place |
| `Conditionals.EmptyThenLeaks` | latextomarkdown.py:952-953 | as written, an empty `\if` branch shortens the span by the five characters of `\else`: the last two characters of the second branch and `\fi` are left behind |
| `Conditionals.EmptyThenExample` | latextomarkdown.py:952-967 | `\ifincludesolutions\else Hello\fi` becomes `lo\fi` |
| `Conditionals.EmptyElseLeaks` | latextomarkdown.py:952-953 | as written, an empty `\else` branch leaves `se\fi` after the kept text |
| `Conditionals.IntendedResolve` | latextomarkdown.py:952-967 | corrected, every block with balanced branches, empty or not, is replaced by exactly the branch its flag selects |
| `Conditionals.IntendedAgrees` | latextomarkdown.py:952-967 | the correction agrees with the source where both branches are non-empty |
| `Footnotes.FootnotesApplied` | latextomarkdown.py:1337-1367 | the outcome of the footnote pass: outside the base file the text is unchanged, in it every footnote gets its marker and its endnote; `ReplaceFootnotes`, `SingleFootnote` and `TwoFootnotes` state it |
| `Footnotes.ReplaceFootnotes` | latextomarkdown.py:1337-1367 | in the base file, the k-th footnote becomes `<sup>[^k]</sup>` over a span eleven characters longer than its body, then a blank line and the endnotes `[^k]: text` follow in the same order; other files are unchanged |
| `Footnotes.CollectNotes` | latextomarkdown.py:1341-1358 | every `\footnote{` in text order with the body the brace scanner reads after it |
| `Footnotes.NotesAt` | latextomarkdown.py:1343-1358 | one note per occurrence, its body read by the brace scanner from the unchanged text |
| `Footnotes.MarkerEdits` | latextomarkdown.py:1360-1363 | the k-th footnote's span is eleven characters longer than its body and its marker numbers it from 1 |
| `Footnotes.AppendEndnotes` | latextomarkdown.py:1364-1367 | a blank line, then the endnotes in text order |
| `Footnotes.EndnoteStep` | latextomarkdown.py:1366-1367 | one turn of the endnote loop appends the next endnote |
| `Footnotes.NoFootnotesUnchanged` | latextomarkdown.py:1360 | a text without footnotes is left as it is |
| `Footnotes.MarkersDistinct` | latextomarkdown.py:1363 | distinct footnotes get distinct markers |
| `Footnotes.NoteAt` | latextomarkdown.py:1357 | a balanced body is read back exactly |
| `Footnotes.SingleFootnote` | latextomarkdown.py:1337-1367 | a single footnote becomes `[^1]` and its body the one endnote |
| `Footnotes.TwoNotes` | latextomarkdown.py:1343-1363 | two footnotes are numbered 1 and 2 in text order |
| `Footnotes.TwoFootnotes` | latextomarkdown.py:1337-1367 | two footnotes get their markers in place and their endnotes in the same order |
| `Commands.CommandsApplied` | latextomarkdown.py:1403-1431 | the outcome of the one-argument command pass: every edit measured on the unchanged text, applied from the back; `SingleCommand`, `UnknownCommandsKept` and `NestedAsWritten` state what it does |
| `Commands.Rewrite` | latextomarkdown.py:1419-1427 | only `emph`, `textit`, `underline`, `textbf` and `mbox` are rewritten, each wrapping its argument in 2 to 7 characters |
| `Commands.CommandPass` | latextomarkdown.py:1403-1431 | the pass reads every argument from the unchanged text and splices from the back; for commands that do not contain one another it is the left-to-right replacement |
| `Commands.CollectArguments` | latextomarkdown.py:1409-1412 | every argument is read by the brace scanner from the unchanged text |
| `Commands.CommandStep` | latextomarkdown.py:1415-1427 | one turn of the loop: a span three characters longer than the name and the argument replaced by the rewrite, unknown commands left |
| `Commands.CommandEditsOrdered` | latextomarkdown.py:1409-1427 | separate commands give ordered splices |
| `Commands.SingleCommand` | latextomarkdown.py:1403-1431 | a single command with a balanced argument becomes its rewrite and the text around it is kept |
| `Commands.UnknownCommandsKept` | latextomarkdown.py:1419-1427 | commands the pass does not know are left as they are |
| `Commands.RewriteBalanced` | latextomarkdown.py:1419-1427 | a rewrite keeps a balanced argument balanced |
| `Commands.BalancedAppend` | latextomarkdown.py:27-42 | balanced texts stay balanced side by side |
| `Commands.BalancedBraced` | latextomarkdown.py:27-42 | a balanced text in braces is balanced |
| `Commands.BraceFreeBalanced` | latextomarkdown.py:27-42 | text without braces is balanced |
| `Commands.NestedArguments` | latextomarkdown.py:1409-1412 | for `\n1{\n2{x}}` the pass reads `\n2{x}` and `x` |
| `Commands.NestedEdits` | latextomarkdown.py:1409-1417 | both splices of `\n1{\n2{x}}` are measured on the unchanged text |
| `Commands.SpliceInner` | latextomarkdown.py:1417-1427 | the inner splice leaves the outer call around the inner rewrite |
| `Commands.SpliceOuterStale` | latextomarkdown.py:1417-1427 | the outer splice, measured with the longer stale argument, runs past the call into the text after it |
| `Commands.NestedAsWritten` | latextomarkdown.py:1403-1431 | as written, the inner command comes back unconverted inside the outer rewrite, and as many characters after the call as the inner rewrite saved are lost |
| `Commands.NestedExample` | latextomarkdown.py:1403-1431 | `\emph{\textbf{x}} yz` becomes `*\textbf{x}*` |
| `Commands.IntendedAgreesOnOne` | latextomarkdown.py:1403-1431 | the corrected pass agrees with the source on a single command |
| `Commands.IntendedOneAt` | latextomarkdown.py:1415-1427 | corrected, each argument is read from the text as it is at its splice |
| `Commands.IntendedInner` | latextomarkdown.py:1415-1427 | corrected, the inner command is rewritten first |
| `Commands.IntendedOuter` | latextomarkdown.py:1415-1427 | corrected, the outer argument is read as the inner rewrite left it |
| `Commands.IntendedTwo` | latextomarkdown.py:1415 | corrected, two matches are handled last first |
| `Commands.IntendedNested` | latextomarkdown.py:1403-1431 | corrected, both commands of `\n1{\n2{x}}` are rewritten, one inside the other, and the text after them is kept |
| `Commands.IntendedExample` | latextomarkdown.py:1403-1431 | corrected, `\emph{\textbf{x}} yz` becomes `***x*** yz` |
| `Fences.Scan` | latextomarkdown.py:1479-1490 | the backward search never lowers the deepest level and stops at or before where it started, at an index of at least 0 once it moved |
| `Fences.SearchOpener` | latextomarkdown.py:1479-1490 | the while loop computes the closer's level and the index of its opener as `Scan` specifies |
| `Fences.PartnerBefore` | latextomarkdown.py:1479-1490 | a closer's opener lies before it, at an index of at least 0 when the closer has nested content |
| `Fences.FencesFixed` | latextomarkdown.py:1456-1497 | the outcome of the fence fix-up: each fence gets the extra backticks its level needs, spliced from the back; `LeafUnchanged` and `NestedAdmonitionTicks` state the tick counts |
| `Fences.FixNestedFences` | latextomarkdown.py:1456-1497 | in the base file, the walk from the last fence to the first inserts each fence's extra backticks, and for fences in text order this is the left-to-right insertion; other files are unchanged |
| `Fences.FenceStep` | latextomarkdown.py:1470-1496 | one turn of the walk inserts the fence's backticks at its start, or nothing |
| `Fences.Update` | latextomarkdown.py:1491-1496 | handling one fence keeps one stored level per fence |
| `Fences.LevelsAfter` | latextomarkdown.py:1470-1496 | one stored level per fence once the fences from `k` on are handled |
| `Fences.Levels` | latextomarkdown.py:1470-1496 | one stored level per fence after the walk |
| `Fences.Insertions` | latextomarkdown.py:1470-1496 | one insertion per fence |
| `Fences.LevelsStable` | latextomarkdown.py:1470-1496 | a closer stores its level only at an opener before it, so a fence's level is final once the walk reaches it |
| `Fences.InsertionsOrdered` | latextomarkdown.py:1470-1496 | fences in text order give ordered insertions |
| `Fences.ScanFacts` | latextomarkdown.py:1483-1490 | from every fence the search passed there are at least as many closers as openers up to the closer, and where it stopped above index 0 there is the opener that balances them |
| `Fences.PartnerFacts` | latextomarkdown.py:1479-1490 | the same for the search of a closer from its start |
| `Fences.PartnerUnique` | latextomarkdown.py:1479-1496 | no two closers find the same opener, unless it is the first fence |
| `Fences.StoredLevelKept` | latextomarkdown.py:1491-1496 | the level a closer stores at its opener survives the rest of the walk |
| `Fences.PairedTicks` | latextomarkdown.py:1470-1496 | a closer with nested content and the opener its search stopped at get the same number of extra backticks |
| `Fences.EndsOf` | latextomarkdown.py:1462-1465 | an admonition's fences are its opener, the fences inside it and its closer |
| `Fences.ScanOverAll` | latextomarkdown.py:1483-1490 | the search passes over a run of whole admonitions, reaching their nesting depth below the level it came in at |
| `Fences.ScanOverOne` | latextomarkdown.py:1483-1490 | the same over one admonition |
| `Fences.NestedPair` | latextomarkdown.py:1479-1490 | an admonition's closer gets as many extra backticks as the admonitions inside it nest, and its search stops at its own opener |
| `Fences.NestedAdmonitionTicks` | latextomarkdown.py:1456-1497 | an admonition with admonitions inside it gets the same positive number of extra backticks at both ends, the depth of its nesting, unless its opener is the first fence |
| `Fences.LeafUnchanged` | latextomarkdown.py:1470-1496 | a closer right after an opener stops its search there with level 0, and neither it nor that opener gets extra backticks, unless the opener is the first fence |
| `Titles.ChapterTitleReplace` | latextomarkdown.py:140-148 | the output is exactly as long as the target line, `# `, the title and a newline; `Titles.ChapterReadBack` gives its lines |
| `Titles.SectionTitleReplace` | latextomarkdown.py:161-178 | the output is exactly as long as the target line, the extra hashes, `## `, the shown title and a newline; `Titles.SectionReadBack` gives its lines |
| `Titles.HeadingRoundTrip` | latextomarkdown.py:146 | a heading line reads back as its level and text |
| `Titles.TargetRoundTrip` | latextomarkdown.py:145 | a target line `(name)=` reads back as its label |
| `Titles.HeadingText` | latextomarkdown.py:140-178 | a heading with an optional target line reads back line by line as those lines |
| `Titles.TargetLines` | latextomarkdown.py:143-146 | the target line, when there is a label, comes before the heading line |
| `Titles.ChapterReadBack` | latextomarkdown.py:140-148 | a chapter becomes its target line when labelled, then a level-1 heading with its title |
| `Titles.SectionHashes` | latextomarkdown.py:170-172 | section, subsection and subsubsection get 2, 3 and 4 hashes |
| `Titles.SectionReadBack` | latextomarkdown.py:161-178 | a section becomes its target line when labelled, then a heading of level 2 to 4 showing the short title when given |
| `Titles.ChapterIgnoresShortTitle` | latextomarkdown.py:140-148 | the chapter callback ignores the bracketed short title |
| `Titles.HashCountRepeat` | latextomarkdown.py:170-175 | a run of `n` hashes is counted as `n` |
| `Equations.EquationReplace` | latextomarkdown.py:203-217 | the `$$` block of an equation with its stripped body and its label tag; `EquationReadBack` states that the label and body read back |
| `Equations.EquationReadBack` | latextomarkdown.py:203-217 | an equation reads back as a blank line, `$$`, the lines of the stripped body and `$$ (label)`, the label after `\begin{equation}` taking precedence over the one at the end |
| `Equations.ClosingRoundTrip` | latextomarkdown.py:209-216 | the closing line reads back as the label or its absence |
| `Equations.AlignSpec` | latextomarkdown.py:248-309 | what `AlignReplace` returns: a converted match unchanged, otherwise the rendering of the blocks; `AlignAlreadyConverted`, `AlignSplitBlocks` and the intended-split lemmas state it |
| `Equations.AlignReplace` | latextomarkdown.py:248-309 | the callback, with its loop over further labels, returns the rendering `AlignSpec` specifies, `None` where the source raises |
| `Equations.AlignAlreadyConverted` | latextomarkdown.py:254-256 | a match already inside a math directive is returned as it is |
| `Equations.Environment` | latextomarkdown.py:284-309 | the environment is missing exactly for an `alignat` without a column count, where the source adds `None` to a string |
| `Equations.Render` | latextomarkdown.py:268-309 | the blocks render exactly when every one of them does |
| `Equations.LaterBlocks` | latextomarkdown.py:288-299 | one block per further label, labelled by it, holding the text after it |
| `Equations.AlignSplitBlocks` | latextomarkdown.py:262-299 | a split gives one directive for the first label and one per further label in body order; each later block holds the text from its label to three characters before the next, the last to the end |
| `Equations.SplitBlockAt` | latextomarkdown.py:274-299 | a split has one block more than further labels, the first labelled by the label after `\begin{align}` |
| `Equations.SplitLabels` | latextomarkdown.py:288-296 | the later blocks carry the further labels in order |
| `Equations.SplitMiddleEquations` | latextomarkdown.py:288-292 | a middle block's equations stop three characters before the next label |
| `Equations.SplitDirectives` | latextomarkdown.py:274-299 | the loop over further labels renders the split blocks in order |
| `Equations.RenderSnoc` | latextomarkdown.py:281-298 | rendering one more block appends its text |
| `Equations.RenderStops` | latextomarkdown.py:281-298 | a block that cannot render makes the whole fail |
| `Equations.RenderOne` | latextomarkdown.py:304-308 | one block renders as itself |
| `Equations.SingleDirective` | latextomarkdown.py:257-309 | without a split, the output is the opening, the label line and the environment |
| `Equations.AlignSingleBlock` | latextomarkdown.py:257-309 | without a split there is one directive, labelled by the group label, else the label after `\begin{align}`, else the one at the end; its equations are the body without labels and `\nonumber` (stripped for `align`) |
| `Equations.KeptText` | latextomarkdown.py:302 | the clean-up substitution keeps the text between the deleted stretches |
| `Equations.BlockReadBack` | latextomarkdown.py:284-309 | a block reads back as a blank line, the opening fence, the `:label:` option, `\begin`, the equations' lines, `\end`, the closing fence |
| `Equations.SplitAlignatAsWritten` | latextomarkdown.py:281-296 | as written, a split `alignat` gives `alignat*` to its first block only, unless a label stood in front of the environment |
| `Equations.SplitAlignatExample` | latextomarkdown.py:281-296 | a concrete split `alignat` whose second block loses its column count |
| `Equations.IntendedAlignBlocks` | latextomarkdown.py:281-296 | corrected blocks, one per block of the source |
| `Equations.IntendedSplitUniform` | latextomarkdown.py:281-296 | corrected, every block holds `alignat*` exactly for an `alignat`, with the source's labels and equations, and renders whenever a column count is given |
| `Derivatives.DvReplace` | latextomarkdown.py:737-752 | `\dv` written as a fraction with the order in the numerator power and the denominator; `DvFraction` and `DvOperatorAlone` state its shape |
| `Derivatives.DvFraction` | latextomarkdown.py:737-752 | `\dv` is the fraction of the order-n operator applied to the function over the differential of the variable to the same order |
| `Derivatives.PdvReplace` | latextomarkdown.py:754-784 | `\pdv` written as a partial-derivative fraction, the order defaulting to the number of variables; `PdvFraction`, `PdvOperatorAlone` and `MixedSecondOrder` state its shape |
| `Derivatives.PdvFraction` | latextomarkdown.py:754-784 | `\pdv` is the fraction of its operator applied to the function over the differentials of its variables; the order is repeated below only for one variable |
| `Derivatives.DvOperatorAlone` | latextomarkdown.py:746-748 | one-argument `\dv` is the operator alone, as for an empty function |
| `Derivatives.PdvOperatorAlone` | latextomarkdown.py:775-777 | the same for `\pdv` |
| `Derivatives.MixedSecondOrder` | latextomarkdown.py:763-773 | three arguments without an order give a mixed second derivative |
| `Derivatives.PartialOrder` | latextomarkdown.py:737-784 | with an order and one variable the order appears on both operator and variable |
| `Derivatives.FirstOrder` | latextomarkdown.py:737-784 | a first derivative carries no power anywhere |
| `Inline.QuotesReplace` | latextomarkdown.py:121-124 | a run of backticks keeps its length |
| `Inline.Quotes` | latextomarkdown.py:1052 | the pass keeps the length and every character that is not a backtick |
| `Inline.QuotesShortRun` | latextomarkdown.py:121-124 | one or two backticks become as many straight quotes |
| `Inline.QuotesPlain` | latextomarkdown.py:1052 | text without backticks goes through unchanged |
| `Inline.QuotesCons` | latextomarkdown.py:1052 | a character other than a backtick is kept in front |
| `Inline.QuotesIdempotent` | latextomarkdown.py:121-124 | running the quote pass twice is running it once |
| `Inline.RunLength` | latextomarkdown.py:1052 | the maximal run of a character at the start of a text |
| `Inline.RunLengthOf` | latextomarkdown.py:1052 | a run followed by another character is matched whole |
| `Inline.StraightdReplace` | latextomarkdown.py:180-186 | `\dd` and the character after it: `\ddo` is left alone, a space is dropped, anything else follows `\mathrm{d}`; `StraightdMeaning` states it |
| `Inline.StraightdMeaning` | latextomarkdown.py:180-186 | `\dd` becomes `\mathrm{d}` with the next character kept, a space dropped, and `\ddo` left alone |
| `Inline.NewFigurePath` | latextomarkdown.py:369-372 | the new path is exactly seven characters (`images/`) longer than the old, since `.svg` replaces `.pdf` at the same length |
| `Inline.NoPdfLeft` | latextomarkdown.py:371 | no `.pdf` is left in the renamed path |
| `Inline.JoinedWithSvg` | latextomarkdown.py:371 | joining `.pdf`-free pieces with `.svg` creates no `.pdf` |
| `Inline.SvgWindow` | latextomarkdown.py:371 | no `.pdf` straddles an inserted `.svg` |
| `Inline.PdfFigure` | latextomarkdown.py:369-372 | a PDF figure is looked for as SVG in the images folder |
| `Inline.OtherFigure` | latextomarkdown.py:369-372 | a path without `.pdf` only moves to the images folder |
| `Inline.TheoremReplace` | latextomarkdown.py:522-528 | a theorem-like environment as a `prf` directive with its title, its optional `:label:` line and its body; `TheoremLines` states its lines |
| `Inline.TheoremLines` | latextomarkdown.py:522-528 | a theorem reads back as its opening line, the `:label:` option when labelled, then the body and the closing fence |
| `Inline.LabelledTheoremLines` | latextomarkdown.py:522-528 | the lines of a labelled theorem |
| `Inline.UnlabelledTheoremLines` | latextomarkdown.py:522-528 | the lines of an unlabelled theorem |
| `Inline.TheoremOpening` | latextomarkdown.py:523-525 | the opening line reads back as the `prf:` directive of the environment with its title as the argument |
| `Inline.CitationReplace` | latextomarkdown.py:530-531 | a citation as the kept lead and a `{cite}` role around the keys; `CitationKeys` states that the keys read back |
| `Inline.CitationKeys` | latextomarkdown.py:530-531 | split at backticks, a citation is the kept text with the role name, the keys exactly as given, and nothing after |
| `Inline.ItemizeItemReplace` | latextomarkdown.py:542-546 | `\item` as a bullet, with the optional label in bold; `BulletRoundTrip` states that the label reads back |
| `Inline.BulletRoundTrip` | latextomarkdown.py:542-546 | a bullet reads back as `\item` with or without its label |
| `Inline.IndexEntryReplace` | latextomarkdown.py:657-660 | an index entry as its own `index` block in front of its line; `IndexEntryShape` states the block and the line after it |
| `Inline.IndexEntryShape` | latextomarkdown.py:657-660 | an index entry becomes its own block in front of the line it was on |
| `Inline.EntryClean` | latextomarkdown.py:658-659 | an entry holds no `!` and no vertical bar |
| `Inline.PlainEntry` | latextomarkdown.py:658-659 | a plain entry is kept as it is |
| `Inline.Subentry` | latextomarkdown.py:659 | `main!sub` becomes `main ; sub` |
| `Inline.EntryDropsRange` | latextomarkdown.py:658 | what follows a vertical bar does not reach the index |
| `Inline.CombineIndexEntries` | latextomarkdown.py:662-663 | two adjacent index blocks as one holding both entries; `CombinedEntries` states the entry list |
| `Inline.CombinedEntries` | latextomarkdown.py:662-663 | two adjacent blocks become one whose entries are those of the first then the second |
| `Inline.AdjacentBlocksShape` | latextomarkdown.py:657-663 | two index blocks an empty line apart are what the combining pattern matches |
| `LinePasses.FormatFootnoteText` | latextomarkdown.py:873-885 | the loop emits the layout `FootnoteLayout` specifies: the first line as it is, then every non-empty later line stripped and behind a tab |
| `LinePasses.FootnoteStep` | latextomarkdown.py:882-884 | one turn of the loop appends the indented line, or nothing for an empty one |
| `LinePasses.FootnoteLayoutLines` | latextomarkdown.py:873-885 | the layout reads back as the first line, one indented line per non-empty later line, and an empty last piece |
| `LinePasses.IndentedRestShape` | latextomarkdown.py:882-884 | every later line kept starts with a tab and holds no newline, and there are no more of them than input lines |
| `LinePasses.IndentProblemLines` | latextomarkdown.py:1507-1522 | the loop emits every stripped non-empty line, behind a tab after the first `1.` or `- ` line unless it is such a line itself |
| `LinePasses.IndentStep` | latextomarkdown.py:1512-1522 | one turn of the loop, in each of its three cases, and when the enumeration counts as started |
| `LinePasses.IndentKeepsContent` | latextomarkdown.py:1507-1522 | the pass only adds tabs: without them its lines are the stripped non-empty input lines in order |
| `LinePasses.NoItemNoIndent` | latextomarkdown.py:1507-1522 | before the first item nothing is indented |
| `LinePasses.IndentedLinesRead` | latextomarkdown.py:1507-1522 | the output reads back line by line as the emitted lines |
| `LinePasses.IndentedLinesShape` | latextomarkdown.py:1512-1522 | every emitted line is non-empty and holds no newline |
| `LinePasses.UnindentAll` | latextomarkdown.py:1519 | each emitted line without its tab |
| `LinePasses.LinesOfTerminated` | latextomarkdown.py:878 | newline-terminated lines split back into themselves and an empty last piece |
| `LinePasses.LinesJoin` | latextomarkdown.py:878 | splitting texts joined by a newline joins their lines |
| `LinePasses.LinesCons` | latextomarkdown.py:878 | the first line is everything before the first newline |
| `LinePasses.LinesSingle` | latextomarkdown.py:878 | a text without a newline is one line |
| `LinePasses.TerminatedAppend` | latextomarkdown.py:879-884 | one more line appends that line and a newline |
| `References.RefReplace` | latextomarkdown.py:476-520 | a `\ref` as its lead word and the role its prefix or label selects; `RefShape` and the lemmas after it state each case |
| `References.RefShape` | latextomarkdown.py:476-520 | every reference is its lead, the role applied to the label, and `)` when the match took one without its opening partner |
| `References.RefParenthesis` | latextomarkdown.py:518-519 | the output ends in `)` exactly when the match took a closing parenthesis without an opening one |
| `References.FallbackWithoutColon` | latextomarkdown.py:506-508 | a bare `\ref` whose label has no colon is an equation reference |
| `References.FallbackByPrefix` | latextomarkdown.py:506-517 | a bare `\ref` is classified by the text before the first colon, compared exactly: `eq` equation; `fig`, `table`, `tab`, `ch`, `sec`, `app` numbered; `thm`, `prop`, `lemma`, `cor`, `axiom`, `def` theorem-like; anything else equation |
| `References.NumberedRef` | latextomarkdown.py:479-487 | figures, tables, chapters, sections and appendices cited with their word become a bare `{numref}` role |
| `References.EquationRef` | latextomarkdown.py:488-493 | an equation keeps its word, plural `s` and separator in front of the `{eq}` role |
| `Tables.TableReplace` | latextomarkdown.py:396-463 | the callback with its row loop returns the table `TableSpec` specifies, `None` where the source raises |
| `Tables.TableFails` | latextomarkdown.py:396-463 | the source fails exactly for brackets without a short caption, an empty column specification, no rows, or a single row holding `\hline` |
| `Tables.TableLines` | latextomarkdown.py:396-463 | the table reads back as the directive with its title, the `:name:` line when labelled, the header row, the alignment row, one line per kept row, the closing fence and the long caption |
| `Tables.OpenTable` | latextomarkdown.py:399-414 | the directive with its title and `:name:` line, and the long caption kept for the end |
| `Tables.Makeup` | latextomarkdown.py:417-432 | the two loops build the alignment row `MakeupRow` specifies |
| `Tables.MakeupFails` | latextomarkdown.py:417-420 | there is no alignment row exactly for an empty specification |
| `Tables.MakeupAlignment` | latextomarkdown.py:417-432 | whatever the vertical-bar separators, the alignment row is one cell per letter of the specification |
| `Tables.AlignCellsShape` | latextomarkdown.py:422-432 | seven characters per letter: `:---`, `:--:`, `---:` for `l`, `c`, `r` and `----` for any other letter |
| `Tables.FormatRow` | latextomarkdown.py:440-442 | the loop builds a row as `Row` specifies |
| `Tables.Cells` | latextomarkdown.py:442 | one cell per column, each without trailing backslashes |
| `Tables.RowCells` | latextomarkdown.py:440-442 | a Markdown row split at its vertical bars gives back the LaTeX row's cells |
| `Tables.CellsSplit` | latextomarkdown.py:442 | the joined cells split back into the cells |
| `Tables.RowNoNewline` | latextomarkdown.py:440-442 | a row without a newline gives one Markdown line |
| `Tables.AppendRow` | latextomarkdown.py:452-461 | an empty, commented-out or `\hline` row adds nothing; any other adds its Markdown row |
| `Tables.AppendRows` | latextomarkdown.py:450-461 | the loop appends the rows after the header as `BodyRows` specifies |
| `Tables.BodyLines` | latextomarkdown.py:450-461 | each kept row is exactly one line, in order, and skipped rows leave nothing |
| `Tables.JoinedLines` | latextomarkdown.py:450-461 | rows that each give nothing or one line read back as those lines |
| `Tables.TableSpec` | latextomarkdown.py:396-463 | what `TableReplace` returns, `None` where the source raises; `TableSpecNone` and `TableSpecSome` state both cases |
| `Tables.TableSpecNone` | latextomarkdown.py:396-463 | each failure of the source gives no table |
| `Tables.TableSpecSome` | latextomarkdown.py:396-463 | the text of a table the source converts |
| `Assembly.WorkedExamples` | latextomarkdown.py:1714-1720 | the text with every worked example replaced by its conversion; `WorkedExamplesStitched` and `NoWorkedExamples` state it |
| `Assembly.SpliceWorkedExamples` | latextomarkdown.py:1703-1726 | without worked examples the text is unchanged; otherwise each example is replaced by its conversion and the reference rewriting runs per label |
| `Assembly.ExampleEdits` | latextomarkdown.py:1713-1719 | one splice per example over the span from its start to its end |
| `Assembly.WorkedExamplesStitched` | latextomarkdown.py:1714-1720 | the splicing replaces the example spans left to right and keeps all text around them |
| `Assembly.ExamplesForward` | latextomarkdown.py:1716-1720 | from the `i`-th example on, the text is the left-to-right replacement |
| `Assembly.ExampleEditsOrdered` | latextomarkdown.py:1713-1719 | the example spans are ordered |
| `Assembly.NoWorkedExamples` | latextomarkdown.py:1714 | without worked examples the text is left as it is |
| `Assembly.ProblemLayout` | latextomarkdown.py:1731-1780 | the file rebuilt from the text before the first problem section and each section laid out, converted as the base file; `LayoutKeepsPieces` states which pieces it reads |
| `Assembly.LayOutProblems` | latextomarkdown.py:1731-1780 | the layout is the text before the first problem section plus every section's heading, problems and converted text, converted as the base file; without sections the whole file is converted |
| `Assembly.AddProblemSection` | latextomarkdown.py:1755-1774 | one problem section: its heading, its problems and the converted text up to the next section |
| `Assembly.ProblemHeadingLevel` | latextomarkdown.py:1757-1759 | the heading is a Markdown heading one level below the LaTeX section, titled `Problems` |
| `Assembly.PiecesCoverSource` | latextomarkdown.py:1743-1777 | the match indices cut the file into the text before the first section and, per section, its LaTeX heading, its problems text (label line included) and the text after it, with no text lost or used twice |
| `Assembly.LayoutKeepsPieces` | latextomarkdown.py:1743-1777 | the layout reads exactly those pieces: with conversions that keep their text and no `\input` files, it is the file with each LaTeX problem heading replaced by its Markdown heading and everything else in place |
| `Assembly.SectionsKeepPieces` | latextomarkdown.py:1755-1774 | the same for the sections from `i` on |
| `Assembly.PiecesFrom` | latextomarkdown.py:1755-1774 | the pieces from section `i` on are the file from that section's start |
| `Assembly.ProblemFileName` | latextomarkdown.py:1765 | the name ends in `.tex` after a prefix of the given name; everything the prefix leaves out is `.`, `t`, `e` or `x`, and the prefix does not end in one of them |
| `Assembly.RStripChars` | latextomarkdown.py:1765 | `rstrip` with a set of characters: a prefix that ends outside the set, with only set characters after it |
| `Assembly.ProblemFileStripsTooMuch` | latextomarkdown.py:1765 | as written, `sheet` is read from `sh.tex` |
| `Assembly.IntendedProblemFileName` | latextomarkdown.py:1765 | corrected, the name always ends in `.tex` |
| `Assembly.IntendedProblemFile` | latextomarkdown.py:1765 | corrected, a name keeps its stem with or without the extension, and the naming is idempotent |
| `Strings.Strip` | latextomarkdown.py:1512 | no white space is left at either end, and a string without any at its ends is returned as it is |
| `Strings.LStrip` | latextomarkdown.py:1512 | only leading white space is removed |
| `Strings.RStrip` | latextomarkdown.py:1512 | only trailing white space is removed |
| `Strings.RStripChar` | latextomarkdown.py:442 | only trailing copies of the character are removed |
| `Strings.SplitOn` | latextomarkdown.py:878 | at least one piece, no piece holds the separator, and joining the pieces gives back the text |
| `Strings.Lines` | latextomarkdown.py:1509 | the lines hold no newline and join back into the text |
| `Strings.SplitLines` | latextomarkdown.py:435 | no line holds a break, and there are no lines exactly for the empty text |
| `Strings.IndexOf` | latextomarkdown.py:710 | the leftmost occurrence at or after `from`, or none |
| `Strings.Occurrences` | latextomarkdown.py:1341 | the occurrences of a literal, in increasing order and pairwise without overlap, none exactly when there is no occurrence |
| `Strings.OccurrencesFirst` | latextomarkdown.py:1341 | no occurrence comes before the first one reported |
| `Strings.OccurrencesGaps` | latextomarkdown.py:1341 | no occurrence lies between the end of one reported match and the next report, so each report is the leftmost past the previous match |
| `Strings.OccurrencesComplete` | latextomarkdown.py:1341 | every occurrence is reported or overlaps a reported one, and the lemma names that report |
| `Strings.OccurrencesShift` | latextomarkdown.py:1341 | after the first report come exactly the reports from the end of its match on |
| `Strings.OccurrencesCons` | latextomarkdown.py:1341 | the reports are the first occurrence followed by the reports after its match |
| `Strings.OccurrencesSingle` | latextomarkdown.py:1341 | a literal that occurs once is found once |
| `Strings.ReplaceAll` | latextomarkdown.py:371 | no occurrence leaves the text unchanged, and a same-length replacement keeps the length |
| `Strings.NatToString` | latextomarkdown.py:1363 | decimal digits without a leading zero that denote the number |
| `Strings.Slice` | latextomarkdown.py:289 | in-range bounds give the plain slice, and no slice is longer than the text |
| `Strings.SliceBound` | latextomarkdown.py:289 | a negative bound counts from the end and the result is clamped |
| `Strings.SplitJoined` | latextomarkdown.py:440 | splitting two texts joined by a separator that cannot overlap itself gives the pieces of both |
| `Strings.ConcatOfSplitIsWithout` | latextomarkdown.py:417-423 | concatenating the pieces of a split on one character removes that character |
| `Strings.SplitFirst` | latextomarkdown.py:417 | the text before the first separator is the first piece |

## Left out

- The regular expressions (`re.finditer`, `re.sub`, `re.search`, including DOTALL, MULTILINE and IGNORECASE). A pass or callback takes the matches and captured groups as input; only matches of literal patterns are computed. The reference pattern matches words case-insensitively while `RefReplace` compares them exactly; the model compares exactly and takes the groups as given.
- The substitution passes of `ConvertFileContentToMarkdown` that are only a pattern and a constant or callback replacement. These are comments, accents, spacing, paths, planet symbols, book-specific fixes, figures, tcolorboxes, infoboxes, enumerate environments, hyperlinks, and the `\bf`/`\it` passes. Their callbacks beyond those listed above are not part of this model.
- `ConvertFileContentToMarkdown` as a whole is a parameter of the assembly (`Converter`), and so are `ProcessProblems`, `ProcessWorkedExample` and the per-label reference rewriting with `ExampleRefReplace`. The passes modelled above are its parts, each on its own.
- The display-equation substitution at the start of `FormatFootnoteText` is a parameter (`equations`).
- The `^\n` removal before the indentation pass is left out. The loop drops empty lines itself, so the result does not change.
- Reading problem files from disk and the global `basepath` that `__main__` sets are left out. The loader is a parameter that receives the name `ProblemFileName` computes.
- `FigureCodeReplace` is left out. It checks the file system and reads `.py` files.
- `json2md.py` is left out. It is JSON loading, argument parsing, PDF rasterisation and file writing.
- The superseded `AlignReplaceOld` and `pdvReplaceOLD` are left out. So are the string versions of `TwovecReplace` and `InprodReplace` (lines 679 and 823), whose calls are commented out. The early one-line callbacks `UnitvecReplace`, `ThreevecReplace`, `DiffReplace` and the first `InprodReplace` (lines 188-201) are left out. So is the command-line entry point, which calls a function the file does not define.
- The constant YAML front-matter block is left out.
- Python exceptions are modelled as `None` results. These are `str + None` in `TableReplace` and `AlignReplace`, `rows[0]` on an empty table, and `rows[1]` when the only row holds `\hline`. The bare `\if` (no qualifier, `len(None)`) is a precondition of `Conditionals.ResolveConditionals`.
- SourceRefs.SourceLookup: the citation key is placed in the lookup pattern without escaping; the model looks it up literally, so a key holding regular-expression metacharacters is not modelled.
- The first block of a split `align` is cut two characters before the first further label and the later ones three before the next, as the source does (`Equations.AlignSplitBlocks` states both cuts). Whether that removes exactly the `\\` and the newline depends on the spacing of the LaTeX source, which is not modelled.
- Scanners.BraceGroupShape: the scan is stated over all prefixes of the returned text; the order of nested groups inside it is not characterised beyond the depth count.
- Fences.NestedAdmonitionTicks: stated for an admonition whose opener is not the first fence of the text. `Fences.NestedPair` gives the closer's level and partner for the first fence too. The search loop stops at index 0 without looking at it, so every search that runs out ends there, and the model does not prove that the level stored at index 0 is the outer closer's.
- The passes model the code as written: `ResolveConditionals`, `CommandPass`, `SourceRefReplace`, `AlignReplace` and the problem layout keep the behaviour the findings below describe. Each corrected definition sits beside the as-written one, with its intended property proved.

## Findings

| source | as written | input that shows it | evidently intended | confidence | as-written member | corrected member |
|---|---|---|---|---|---|---|
| latextomarkdown.py:67-70, 952-953 | with an empty `\if` branch `FindMatchingEndif` returns the `\else` text first and "" second, so the span omits the five characters of `\else` | `\ifincludesolutions\else Hello\fi` becomes `lo\fi` | the block is replaced by the branch its flag selects, empty or not | not executed | `Conditionals.EmptyThenLeaks`, `Conditionals.EmptyThenExample` | `Conditionals.IntendedResolve` |
| latextomarkdown.py:710-711 | the greedy `(.*)` takes the whole line, so the optional `(\\fi)?` never removes a trailing `\fi` | a sources line `\item \label{k} Book\fi` gives the footnote `Book\fi` | the description without the trailing `\fi` | not executed | `SourceRefs.LookupKeepsFi` | `SourceRefs.IntendedSourceLookup` |
| latextomarkdown.py:1409-1427 | a nested command's outer span is measured with the argument read before the inner rewrite | `\emph{\textbf{x}} yz` becomes `*\textbf{x}*` | both commands rewritten and the text after them kept: `***x*** yz` | not executed | `Commands.NestedAsWritten`, `Commands.NestedExample` | `Commands.IntendedNested`, `Commands.IntendedExample` |
| latextomarkdown.py:276, 290 | the later blocks of a split `alignat` test group 4 (a label in front) instead of group 5 (`at`) | `\begin{alignat}{2}\label{a}x &= 1 \\` then `\label{b}` and `y &= 2` gives `align*` for the second block | every block of a split `alignat` is an `alignat*` with the column count | not executed | `Equations.SplitAlignatAsWritten`, `Equations.SplitAlignatExample` | `Equations.IntendedAlignBlocks`, `Equations.IntendedSplitUniform` |
| latextomarkdown.py:1765 | `rstrip(".tex")` strips any trailing `.`, `t`, `e`, `x` characters, not the suffix | `\input{sheet}` is read from `sh.tex` | `.tex` appended unless already there | not executed | `Assembly.ProblemFileName`, `Assembly.ProblemFileStripsTooMuch` | `Assembly.IntendedProblemFileName`, `Assembly.IntendedProblemFile` |

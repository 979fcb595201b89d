/** The footnote pass of the base file: the k-th `\footnote{body}` in the
    text becomes the marker `<sup>[^k]</sup>`, and the bodies are appended in
    the same order as endnotes `[^k]: body`, each laid out by
    `FormatFootnoteText`. Other files keep their footnotes. */
module Footnotes {
  import opened Strings
  import opened Splice
  import opened Scanners
  import opened LinePasses

  /** The footnote opener, ten characters long. */
  const Opener: string := "\\footnote{"

  /** A footnote found in the unchanged text: where it starts and its body. */
  datatype Note = Note(start: nat, body: string)

  function NotesAt(s: string, starts: seq<nat>): (r: seq<Note>)
    ensures |r| == |starts|
    ensures forall i :: 0 <= i < |r| ==> r[i] == Note(starts[i], BraceGroup(s, starts[i] + |Opener|))
  {
    seq(|starts|, i requires 0 <= i < |starts| => Note(starts[i], BraceGroup(s, starts[i] + |Opener|)))
  }

  /** The footnotes of `s`, in the order of the text. */
  function Notes(s: string): seq<Note> {
    NotesAt(s, Occurrences(s, Opener, 0))
  }

  /** The marker of the k-th footnote, `<sup>[^k]</sup>`. */
  function Marker(k: nat): string {
    "<sup>[^" + NatToString(k) + "]</sup>"
  }

  /** The splices that put the markers in: the span of a footnote is its
      opener, its body and the closing brace. */
  function MarkerEdits(ns: seq<Note>): (r: seq<Edit>)
    ensures |r| == |ns|
    ensures forall i :: 0 <= i < |ns| ==> r[i] == Edit(ns[i].start, 11 + |ns[i].body|, Marker(i + 1))
  {
    seq(|ns|, i requires 0 <= i < |ns| => Edit(ns[i].start, 11 + |ns[i].body|, Marker(i + 1)))
  }

  function Endnote(k: nat, body: string, equations: string -> string): string {
    "[^" + NatToString(k) + "]: " + FootnoteLayout(body, equations) + "\n\n"
  }

  /** The endnotes of the first `n` footnotes, numbered from 1. */
  function Endnotes(ns: seq<Note>, n: nat, equations: string -> string): string
    requires n <= |ns|
  {
    if n == 0 then [] else Endnotes(ns, n - 1, equations) + Endnote(n, ns[n - 1].body, equations)
  }

  /** The outcome of the pass. */
  function FootnotesApplied(s: string, isBaseFile: bool, equations: string -> string): string {
    var ns := Notes(s);
    if !isBaseFile || ns == [] then s
    else ApplyReverse(s, MarkerEdits(ns)) + "\n\n" + Endnotes(ns, |ns|, equations)
  }

  /** The footnote pass: collect the footnotes from the unchanged text,
      splice the markers in from the back, then append the endnotes. */
  method ReplaceFootnotes(s: string, isBaseFile: bool, equations: string -> string) returns (r: string)
    ensures r == FootnotesApplied(s, isBaseFile, equations)
    ensures isBaseFile && Notes(s) != [] && Ordered(MarkerEdits(Notes(s)), 0, |s|)
      ==> r == Stitched(s, MarkerEdits(Notes(s))) + "\n\n" + Endnotes(Notes(s), |Notes(s)|, equations)
  {
    r := s;
    if isBaseFile {
      var notes := CollectNotes(s);
      if |notes| > 0 {
        r := ApplyEdits(r, MarkerEdits(notes));
        r := AppendEndnotes(r, notes, equations);
      }
    }
  }

  /** The first loop of the pass: every `\footnote{` and the body the brace
      scanner reads after it. */
  method CollectNotes(s: string) returns (notes: seq<Note>)
    ensures notes == Notes(s)
  {
    var starts := Occurrences(s, Opener, 0);
    notes := [];
    for k := 0 to |starts|
      invariant notes == NotesAt(s, starts[..k])
    {
      var body := FindSubstringInBraces(s, starts[k] + 10);
      notes := notes + [Note(starts[k], body)];
    }
    assert starts[..|starts|] == starts;
  }

  /** The last loop of the pass: a blank line, then the endnotes in order. */
  method AppendEndnotes(marked: string, notes: seq<Note>, equations: string -> string) returns (r: string)
    ensures r == marked + "\n\n" + Endnotes(notes, |notes|, equations)
  {
    r := marked + "\n\n";
    assert r == marked + "\n\n" + Endnotes(notes, 0, equations);
    for k := 0 to |notes|
      invariant r == marked + "\n\n" + Endnotes(notes, k, equations)
    {
      ghost var prev := r;
      var text := FormatFootnoteText(notes[k].body, equations);
      r := r + ("[^" + NatToString(k + 1) + "]: " + text + "\n\n");
      EndnoteStep(notes, k, equations, marked, prev, text, r);
    }
  }

  /** One turn of the endnote loop of `ReplaceFootnotes`. */
  lemma EndnoteStep(notes: seq<Note>, k: nat, equations: string -> string,
                    marked: string, prev: string, text: string, r: string)
    requires k < |notes|
    requires prev == marked + "\n\n" + Endnotes(notes, k, equations)
    requires text == FootnoteLayout(notes[k].body, equations)
    requires r == prev + ("[^" + NatToString(k + 1) + "]: " + text + "\n\n")
    ensures r == marked + "\n\n" + Endnotes(notes, k + 1, equations)
  {
    var note := Endnote(k + 1, notes[k].body, equations);
    assert r == prev + note;
    assert Endnotes(notes, k + 1, equations) == Endnotes(notes, k, equations) + note;
    Associate(marked + "\n\n", Endnotes(notes, k, equations), note);
  }

  /** A text without footnotes is left as it is. */
  lemma NoFootnotesUnchanged(s: string, isBaseFile: bool, equations: string -> string)
    requires forall k :: !OccursAt(s, Opener, k)
    ensures FootnotesApplied(s, isBaseFile, equations) == s
  {
  }

  /** Distinct footnotes get distinct markers. */
  lemma MarkersDistinct(j: nat, k: nat)
    requires j != k
    ensures Marker(j) != Marker(k)
  {
    var a := NatToString(j);
    var b := NatToString(k);
    if |a| == |b| {
      assert Marker(j)[7..7 + |a|] == a;
      assert Marker(k)[7..7 + |b|] == b;
      assert DigitsValue(a) == j && DigitsValue(b) == k;
    } else {
      assert |Marker(j)| != |Marker(k)|;
    }
  }

  /** The text of a footnote. */
  function FootnoteCall(body: string): string {
    "\\footnote" + Braced(body)
  }

  /** Where the pass reads a balanced body, it reads exactly the body. */
  lemma NoteAt(s: string, p: string, body: string, rest: string)
    requires Balanced(body)
    requires s == p + FootnoteCall(body) + rest
    ensures BraceGroup(s, |p| + |Opener|) == body
  {
    assert s == (p + "\\footnote") + (Braced(body) + rest);
    BracedAt(s, |p| + 9, body, rest);
  }

  /** A single footnote becomes the marker `[^1]`, and its body the one endnote. */
  lemma SingleFootnote(p: string, body: string, rest: string, equations: string -> string)
    requires Balanced(body)
    requires Occurrences(p + FootnoteCall(body) + rest, Opener, 0) == [|p|]
    ensures FootnotesApplied(p + FootnoteCall(body) + rest, true, equations)
      == p + Marker(1) + rest + "\n\n" + Endnote(1, body, equations)
  {
    var s := p + FootnoteCall(body) + rest;
    NoteAt(s, p, body, rest);
    var ns := Notes(s);
    assert ns == [Note(|p|, body)];
    var e := Edit(|p|, 11 + |body|, Marker(1));
    assert MarkerEdits(ns) == [e];
    ApplyReverseSingle(s, e);
    ApplyInside(p, FootnoteCall(body), rest, 11 + |body|, Marker(1));
    assert Endnotes(ns, 1, equations) == Endnote(1, body, equations);
  }

  lemma TwoNotes(s: string, i: nat, j: nat, b1: string, b2: string)
    requires Occurrences(s, Opener, 0) == [i, j]
    requires BraceGroup(s, i + |Opener|) == b1 && BraceGroup(s, j + |Opener|) == b2
    ensures Notes(s) == [Note(i, b1), Note(j, b2)]
    ensures MarkerEdits(Notes(s)) == [Edit(i, 11 + |b1|, Marker(1)), Edit(j, 11 + |b2|, Marker(2))]
  {
  }

  /** Two footnotes are numbered in the order of the text, and their
      endnotes follow in the same order. */
  lemma TwoFootnotes(p: string, b1: string, mid: string, b2: string, rest: string, equations: string -> string)
    requires Balanced(b1) && Balanced(b2)
    requires Occurrences(p + FootnoteCall(b1) + mid + FootnoteCall(b2) + rest, Opener, 0)
      == [|p|, |p + FootnoteCall(b1) + mid|]
    ensures FootnotesApplied(p + FootnoteCall(b1) + mid + FootnoteCall(b2) + rest, true, equations)
      == p + Marker(1) + mid + Marker(2) + rest + "\n\n"
         + (Endnote(1, b1, equations) + Endnote(2, b2, equations))
  {
    var c1 := FootnoteCall(b1);
    var c2 := FootnoteCall(b2);
    var q := p + c1 + mid;
    var s := p + c1 + mid + c2 + rest;
    assert BraceGroup(s, |p| + |Opener|) == b1 by {
      RegroupFour(p + c1, mid, c2, rest);
      NoteAt(s, p, b1, mid + c2 + rest);
    }
    assert BraceGroup(s, |q| + |Opener|) == b2 by {
      NoteAt(s, q, b2, rest);
    }
    TwoNotes(s, |p|, |q|, b1, b2);
    var ns := Notes(s);
    var es := MarkerEdits(ns);
    assert ApplyReverse(s, es) == p + Marker(1) + mid + Marker(2) + rest by {
      ApplyReverseTwo(s, es);
      ApplyInside(q, c2, rest, 11 + |b2|, Marker(2));
      RegroupFour(p + c1, mid, Marker(2), rest);
      ApplyInside(p, c1, mid + Marker(2) + rest, 11 + |b1|, Marker(1));
      RegroupFour(p + Marker(1), mid, Marker(2), rest);
    }
    assert Endnotes(ns, 2, equations) == Endnote(1, b1, equations) + Endnote(2, b2, equations) by {
      assert Endnotes(ns, 1, equations) == Endnote(1, b1, equations);
    }
  }
}

/** `SourceRefReplace`: every citation `[\ref{key}]` whose key is listed in
    the sources text as `\item \label{key} <description>` becomes a footnote
    `\footnote{<description>}`; citations of unlisted keys are kept.

    The citations are located by a regular expression; the model takes that
    match list as an input. The lookup of a key in the sources text is a
    search for a literal prefix followed by the rest of its line, and is
    modelled directly. */
module SourceRefs {
  import opened Strings
  import opened Splice

  /** One match of `[\ref{key}]`: the key is non-empty and holds no `}`. */
  datatype Citation = Citation(start: nat, key: string)
  {
    /** `[\ref{` (6 characters), the key, `}]` (2 characters). */
    function End(): nat { start + 8 + |key| }
  }

  function CitationText(key: string): (r: string)
    ensures |r| == 8 + |key|
  {
    "[\\ref{" + key + "}]"
  }

  /** `c` is a genuine match in `s`. */
  predicate CitationAt(s: string, c: Citation) {
    c.key != [] && '}' !in c.key && c.End() <= |s| && s[c.start..c.End()] == CitationText(c.key)
  }

  /** The matches of one left-to-right scan: genuine and not overlapping. */
  predicate Matched(s: string, cs: seq<Citation>) {
    (forall i :: 0 <= i < |cs| ==> CitationAt(s, cs[i]))
    && (forall i, j :: 0 <= i < j < |cs| ==> cs[i].End() <= cs[j].start)
  }

  // ---------------------------------------------------------------------------
  // Looking a key up

  /** The text in front of a listed description. */
  function LabelPrefix(key: string): (r: string)
    ensures |r| > 0
  {
    "\\item \\label{" + key + "} "
  }

  /** What `(.*)` captures at `i`: everything up to the next newline or the end. */
  function RestOfLine(s: string, i: nat): (r: string)
    requires i <= |s|
    ensures i + |r| <= |s| && s[i..i + |r|] == r
    ensures '\n' !in r
    ensures i + |r| == |s| || s[i + |r|] == '\n'
  {
    match IndexOf(s, "\n", i)
    case Some(j) =>
      assert s[j..j + 1] == "\n";
      assert forall k :: i <= k < j ==> s[k] != '\n' by {
        forall k | i <= k < j ensures s[k] != '\n' {
          assert !OccursAt(s, "\n", k);
          assert s[k..k + 1] == [s[k]];
        }
      }
      s[i..j]
    case None =>
      assert forall k :: i <= k < |s| ==> s[k] != '\n' by {
        forall k | i <= k < |s| ensures s[k] != '\n' {
          assert !OccursAt(s, "\n", k);
          assert s[k..k + 1] == [s[k]];
        }
      }
      s[i..]
  }

  /** The first `\item \label{key} ` line of `sources`, and the rest of that
      line. The trailing `(\fi)?` of the pattern never captures anything:
      the greedy `(.*)` before it has already taken the whole line. */
  function SourceLookup(sources: string, key: string): (r: Option<string>)
    ensures r.None? <==> forall k :: !OccursAt(sources, LabelPrefix(key), k)
    ensures r.Some? ==> '\n' !in r.value
  {
    match IndexOf(sources, LabelPrefix(key), 0)
    case None => None
    case Some(k) => Some(RestOfLine(sources, k + |LabelPrefix(key)|))
  }

  /** `(.*)` stops at the first newline. */
  lemma RestOfLineAt(s: string, i: nat, line: string, post: string)
    requires i <= |s| && s[i..] == line + "\n" + post
    requires '\n' !in line
    ensures RestOfLine(s, i) == line
  {
    var r := RestOfLine(s, i);
    assert forall k :: 0 <= k < |line| ==> s[i + k] == line[k] by {
      forall k | 0 <= k < |line| ensures s[i + k] == line[k] {
        assert s[i..][k] == line[k];
      }
    }
    assert s[i + |line|] == '\n' by { assert s[i..][|line|] == '\n'; }
    assert forall k :: i <= k < i + |line| ==> s[k] != '\n' by {
      forall k | i <= k < i + |line| ensures s[k] != '\n' {
        assert s[k] == line[k - i];
        assert line[k - i] in line;
      }
    }
    assert |r| >= |line|;
    assert |r| <= |line|;
  }

  /** A listed key is found on its first line, and its description is the
      rest of that line. */
  lemma LookupListed(src: string, key: string, k: nat, line: string, post: string)
    requires OccursAt(src, LabelPrefix(key), k)
    requires forall j :: 0 <= j < k ==> !OccursAt(src, LabelPrefix(key), j)
    requires src[k + |LabelPrefix(key)|..] == line + "\n" + post
    requires '\n' !in line
    ensures SourceLookup(src, key) == Some(line)
  {
    IndexOfFirst(src, LabelPrefix(key), 0, k);
    RestOfLineAt(src, k + |LabelPrefix(key)|, line, post);
    LookupAt(src, key, k);
  }

  lemma LookupAt(src: string, key: string, k: nat)
    requires IndexOf(src, LabelPrefix(key), 0) == Some(k)
    ensures SourceLookup(src, key) == Some(RestOfLine(src, k + |LabelPrefix(key)|))
  {
  }

  /** There is nothing to look a key up in when the sources text is empty. */
  lemma LookupEmpty(key: string)
    ensures SourceLookup("", key) == None
  {
  }

  // ---------------------------------------------------------------------------
  // The pass

  /** The replacement text of a citation. */
  function Footnote(desc: string): string {
    "\\footnote{" + desc + "}"
  }

  /** The splice for one citation: none when its key is not listed. */
  function CitationEdit(c: Citation, sources: string): seq<Edit> {
    match SourceLookup(sources, c.key)
    case None => []
    case Some(line) => [Edit(c.start, 8 + |c.key|, Footnote(line))]
  }

  function CitationEdits(cs: seq<Citation>, sources: string): seq<Edit> {
    if cs == [] then [] else CitationEdit(cs[0], sources) + CitationEdits(cs[1..], sources)
  }

  function SourceRefsReplaced(s: string, sources: string, cs: seq<Citation>): string {
    ApplyReverse(s, CitationEdits(cs, sources))
  }

  lemma CitationEditsStep(cs: seq<Citation>, sources: string, i: nat)
    requires i < |cs|
    ensures CitationEdits(cs[i..], sources) == CitationEdit(cs[i], sources) + CitationEdits(cs[i + 1..], sources)
  {
    assert cs[i..][1..] == cs[i + 1..];
  }

  /** The citations lie in `from..n` in order; so do their splices. */
  lemma {:induction false} CitationEditsOrdered(cs: seq<Citation>, sources: string, from: nat, n: nat)
    requires from <= n
    requires forall i :: 0 <= i < |cs| ==> from <= cs[i].start && cs[i].End() <= n
    requires forall i, j :: 0 <= i < j < |cs| ==> cs[i].End() <= cs[j].start
    ensures Ordered(CitationEdits(cs, sources), from, n)
    decreases |cs|
  {
    if cs != [] {
      var c := cs[0];
      var tail := cs[1..];
      assert forall i :: 0 <= i < |tail| ==> tail[i] == cs[i + 1];
      CitationEditsOrdered(tail, sources, c.End(), n);
      var rest := CitationEdits(tail, sources);
      var head := CitationEdit(c, sources);
      assert forall e :: e in head ==> from <= e.start && e.End() <= c.End() && c.End() <= n;
      assert forall j :: 0 <= j < |rest| ==> c.End() <= rest[j].start;
    }
  }

  /** One turn of the loop of `SourceRefReplace`. */
  lemma CitationStep(s: string, sources: string, cs: seq<Citation>, i: nat, prev: string, r: string)
    requires i < |cs|
    requires prev == ApplyReverse(s, CitationEdits(cs[i + 1..], sources))
    requires SourceLookup(sources, cs[i].key).None? ==> r == prev
    requires SourceLookup(sources, cs[i].key).Some? ==>
      r == Take(prev, cs[i].start) + Footnote(SourceLookup(sources, cs[i].key).value)
           + Drop(prev, cs[i].start + 8 + |cs[i].key|)
    ensures r == ApplyReverse(s, CitationEdits(cs[i..], sources))
  {
    CitationEditsStep(cs, sources, i);
    ApplyReverseAppend(s, CitationEdit(cs[i], sources), CitationEdits(cs[i + 1..], sources));
    match SourceLookup(sources, cs[i].key)
    case None =>
      assert CitationEdit(cs[i], sources) == [];
      assert CitationEdits(cs[i..], sources) == CitationEdits(cs[i + 1..], sources);
    case Some(line) =>
      ApplyReverseSingle(prev, Edit(cs[i].start, 8 + |cs[i].key|, Footnote(line)));
  }

  /** `SourceRefReplace`: walk the citations from the last to the first and
      splice a footnote over every one whose key is listed. */
  method SourceRefReplace(s: string, sources: string, cs: seq<Citation>) returns (r: string)
    ensures r == SourceRefsReplaced(s, sources, cs)
    ensures Matched(s, cs) ==> Ordered(CitationEdits(cs, sources), 0, |s|)
                               && r == Stitched(s, CitationEdits(cs, sources))
  {
    r := s;
    var i := |cs|;
    while i > 0
      invariant 0 <= i <= |cs|
      invariant r == ApplyReverse(s, CitationEdits(cs[i..], sources))
    {
      i := i - 1;
      ghost var prev := r;
      var c := cs[i];
      var found := SourceLookup(sources, c.key);
      if found.Some? {
        var endpos := c.start + 8 + |c.key|;
        r := Take(r, c.start) + Footnote(found.value) + Drop(r, endpos);
      }
      CitationStep(s, sources, cs, i, prev, r);
    }
    assert cs[0..] == cs;
    if Matched(s, cs) {
      CitationEditsOrdered(cs, sources, 0, |s|);
      ApplyReverseIsStitched(s, CitationEdits(cs, sources));
    }
  }

  /** The converter skips the pass when there is no sources text; the pass
      itself would not change anything either. */
  lemma {:induction false} NoSourcesUnchanged(s: string, cs: seq<Citation>)
    ensures SourceRefsReplaced(s, "", cs) == s
  {
    assert CitationEdits(cs, "") == [] by { NoEditsWithoutSources(cs); }
  }

  lemma {:induction false} NoEditsWithoutSources(cs: seq<Citation>)
    ensures CitationEdits(cs, "") == []
    decreases |cs|
  {
    if cs != [] {
      LookupEmpty(cs[0].key);
      NoEditsWithoutSources(cs[1..]);
    }
  }

  /** A single citation of a listed key becomes a footnote with its description. */
  lemma CitationToFootnote(p: string, key: string, rest: string, sources: string, line: string)
    requires SourceLookup(sources, key) == Some(line)
    ensures SourceRefsReplaced(p + CitationText(key) + rest, sources, [Citation(|p|, key)])
      == p + Footnote(line) + rest
  {
    var e := Edit(|p|, 8 + |key|, Footnote(line));
    assert CitationEdits([Citation(|p|, key)], sources) == [e] by {
      assert [Citation(|p|, key)][1..] == [];
    }
    ApplyReverseSingle(p + CitationText(key) + rest, e);
    ApplyInside(p, CitationText(key), rest, 8 + |key|, Footnote(line));
  }

  /** A citation of an unlisted key is left as it is. */
  lemma CitationUnlisted(s: string, c: Citation, sources: string)
    requires SourceLookup(sources, c.key) == None
    ensures SourceRefsReplaced(s, sources, [c]) == s
  {
    assert [c][1..] == [];
    assert CitationEdits([c], sources) == [];
  }

  // ---------------------------------------------------------------------------
  // The trailing `\fi`

  /** As written, a description line ending in `\fi` keeps it in the footnote. */
  lemma LookupKeepsFi(src: string, key: string, k: nat, desc: string, post: string)
    requires OccursAt(src, LabelPrefix(key), k)
    requires forall j :: 0 <= j < k ==> !OccursAt(src, LabelPrefix(key), j)
    requires src[k + |LabelPrefix(key)|..] == desc + "\\fi" + "\n" + post
    requires '\n' !in desc
    ensures SourceLookup(src, key) == Some(desc + "\\fi")
  {
    assert '\n' !in desc + "\\fi" by {
      assert forall i :: 0 <= i < |desc + "\\fi"| ==> (desc + "\\fi")[i] != '\n' by {
        forall i | 0 <= i < |desc + "\\fi"| ensures (desc + "\\fi")[i] != '\n' {
          if i < |desc| { assert (desc + "\\fi")[i] == desc[i] && desc[i] in desc; }
        }
      }
    }
    LookupListed(src, key, k, desc + "\\fi", post);
  }

  /** The description with one trailing `\fi` removed, as the optional group
      of the pattern evidently means to do. */
  function IntendedSourceLookup(sources: string, key: string): (r: Option<string>)
    ensures r.None? <==> SourceLookup(sources, key).None?
    ensures r.Some? ==> r.value == SourceLookup(sources, key).value
                        || r.value + "\\fi" == SourceLookup(sources, key).value
  {
    match SourceLookup(sources, key)
    case None => None
    case Some(line) =>
      if |line| >= 3 && line[|line| - 3..] == "\\fi" then
        assert line[..|line| - 3] + "\\fi" == line;
        Some(line[..|line| - 3])
      else Some(line)
  }

  /** The corrected lookup returns the description without the `\fi`. */
  lemma IntendedLookupDropsFi(src: string, key: string, k: nat, desc: string, post: string)
    requires OccursAt(src, LabelPrefix(key), k)
    requires forall j :: 0 <= j < k ==> !OccursAt(src, LabelPrefix(key), j)
    requires src[k + |LabelPrefix(key)|..] == desc + "\\fi" + "\n" + post
    requires '\n' !in desc
    ensures IntendedSourceLookup(src, key) == Some(desc)
  {
    LookupKeepsFi(src, key, k, desc, post);
    var line := desc + "\\fi";
    assert line[|line| - 3..] == "\\fi";
    assert line[..|line| - 3] == desc;
  }
}

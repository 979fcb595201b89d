/** The two passes that rebuild a text line by line: the layout of a
    footnote's text (`FormatFootnoteText`) and the indentation of problem and
    example files after their first enumeration item. Both split the text on
    `"\n"` and emit every line they keep followed by a newline. */
module LinePasses {
  import opened Strings

  /** Every line followed by a newline. */
  function Terminated(ls: seq<string>): string {
    if ls == [] then [] else ls[0] + "\n" + Terminated(ls[1..])
  }

  lemma {:induction false} TerminatedAppend(ls: seq<string>, x: string)
    ensures Terminated(ls + [x]) == Terminated(ls) + (x + "\n")
    decreases |ls|
  {
    if ls == [] {
      assert [] + [x] == [x];
      assert [x][1..] == [];
    } else {
      assert (ls + [x])[1..] == ls[1..] + [x];
      TerminatedAppend(ls[1..], x);
    }
  }

  /** Splitting newline-terminated lines gives them back, and an empty last
      piece after the final newline. */
  lemma {:induction false} LinesOfTerminated(ls: seq<string>)
    requires forall i :: 0 <= i < |ls| ==> '\n' !in ls[i]
    ensures Lines(Terminated(ls)) == ls + [""]
    decreases |ls|
  {
    if ls == [] {
      assert IndexOf("", "\n", 0) == None;
    } else {
      LinesCons(ls[0], Terminated(ls[1..]));
      LinesOfTerminated(ls[1..]);
      assert ls == [ls[0]] + ls[1..];
    }
  }

  /** The first line is everything before the first newline. */
  lemma LinesCons(l: string, t: string)
    requires '\n' !in l
    ensures Lines(l + "\n" + t) == [l] + Lines(t)
  {
    var s := l + "\n" + t;
    assert OccursAt(s, "\n", |l|) by { assert s[|l|..|l| + 1] == "\n"; }
    forall j | 0 <= j < |l| ensures !OccursAt(s, "\n", j) {
      assert s[j] == l[j] && l[j] in l;
    }
    IndexOfFirst(s, "\n", 0, |l|);
    assert s[..|l|] == l;
    assert s[|l| + 1..] == t;
  }

  /** A text without a newline is one line. */
  lemma LinesSingle(l: string)
    requires '\n' !in l
    ensures Lines(l) == [l]
  {
    forall k | 0 <= k < |l| ensures !OccursAt(l, "\n", k) {
      assert l[k] in l;
    }
  }

  /** Joining two texts with a newline joins their lists of lines. */
  lemma {:induction false} LinesJoin(x: string, y: string)
    ensures Lines(x + "\n" + y) == Lines(x) + Lines(y)
    decreases |x|
  {
    if '\n' in x {
      var k :| 0 <= k < |x| && x[k] == '\n';
      var j := FirstNewline(x, k);
      var a, b := x[..j], x[j + 1..];
      assert x == a + "\n" + b by { assert x[j..j + 1] == "\n"; }
      calc {
        Lines(x + "\n" + y);
        { assert x + "\n" + y == a + "\n" + (b + "\n" + y); }
        Lines(a + "\n" + (b + "\n" + y));
        { LinesCons(a, b + "\n" + y); }
        [a] + Lines(b + "\n" + y);
        { LinesJoin(b, y); }
        [a] + (Lines(b) + Lines(y));
        ([a] + Lines(b)) + Lines(y);
        { LinesCons(a, b); }
        Lines(a + "\n" + b) + Lines(y);
        Lines(x) + Lines(y);
      }
    } else {
      LinesCons(x, y);
      LinesSingle(x);
    }
  }

  /** The first newline of `x`, given one at `k`. */
  lemma FirstNewline(x: string, k: nat) returns (j: nat)
    requires k < |x| && x[k] == '\n'
    ensures j <= k && x[j] == '\n' && '\n' !in x[..j]
  {
    j := 0;
    while x[j] != '\n'
      invariant j <= k && '\n' !in x[..j]
      decreases k - j
    {
      assert x[..j + 1] == x[..j] + [x[j]];
      j := j + 1;
    }
  }

  // ---------------------------------------------------------------------------
  // FormatFootnoteText

  /** The later lines of a footnote: empty ones are dropped, the others
      stripped and indented by a tab. */
  function IndentedRest(ls: seq<string>): seq<string>
    decreases |ls|
  {
    if ls == [] then []
    else
      var last := ls[|ls| - 1];
      IndentedRest(ls[..|ls| - 1]) + (if last == "" then [] else ["\t" + Strip(last)])
  }

  /** The lines `FormatFootnoteText` emits for the lines of its input. */
  function FootnoteLines(ls: seq<string>): seq<string>
    requires |ls| >= 1
  {
    [ls[0]] + IndentedRest(ls[1..])
  }

  /** `FormatFootnoteText` after the display-equation rewrite, which the
      converter does with a regular-expression substitution and which is
      passed in here as `equations`. */
  function FootnoteLayout(text: string, equations: string -> string): string {
    Terminated(FootnoteLines(Lines(equations(text))))
  }

  /** `FormatFootnoteText`: the first line as it is, then every non-empty
      later line stripped and behind a tab, each followed by a newline. */
  method FormatFootnoteText(text: string, equations: string -> string) returns (r: string)
    ensures r == FootnoteLayout(text, equations)
  {
    var lines := Lines(equations(text));
    r := lines[0] + "\n";
    assert r == Terminated([lines[0]] + IndentedRest(lines[1..1]));
    for i := 1 to |lines|
      invariant r == Terminated([lines[0]] + IndentedRest(lines[1..i]))
    {
      assert lines[1..i + 1] == lines[1..i] + [lines[i]];
      FootnoteStep(lines[0], lines[1..i], lines[i]);
      if lines[i] != "" {
        r := r + ("\t" + Strip(lines[i]) + "\n");
      }
    }
    assert lines[1..|lines|] == lines[1..];
  }

  /** One turn of the loop of `FormatFootnoteText`. */
  lemma FootnoteStep(first: string, done: seq<string>, l: string)
    ensures Terminated([first] + IndentedRest(done + [l]))
      == Terminated([first] + IndentedRest(done)) + (if l == "" then "" else "\t" + Strip(l) + "\n")
  {
    var ls := done + [l];
    assert ls[..|ls| - 1] == done;
    var before := [first] + IndentedRest(done);
    if l == "" {
      assert [first] + IndentedRest(ls) == before;
      assert Terminated(before) + "" == Terminated(before);
    } else {
      assert [first] + IndentedRest(ls) == before + ["\t" + Strip(l)];
      TerminatedAppend(before, "\t" + Strip(l));
    }
  }

  /** Every line kept after the first is indented and holds no newline. */
  lemma {:induction false} IndentedRestShape(ls: seq<string>)
    requires forall i :: 0 <= i < |ls| ==> '\n' !in ls[i]
    ensures forall i :: 0 <= i < |IndentedRest(ls)| ==>
      |IndentedRest(ls)[i]| >= 1 && IndentedRest(ls)[i][0] == '\t' && '\n' !in IndentedRest(ls)[i]
    ensures |IndentedRest(ls)| <= |ls|
    decreases |ls|
  {
    if ls != [] {
      var last := ls[|ls| - 1];
      IndentedRestShape(ls[..|ls| - 1]);
      if last != "" {
        StripKeepsOut(last, '\n');
        var x := "\t" + Strip(last);
        assert '\n' !in x by {
          forall j | 0 <= j < |x| ensures x[j] != '\n' {
            if j > 0 { assert x[j] == Strip(last)[j - 1]; }
          }
        }
      }
    }
  }

  /** Read back line by line, the layout is the first line, one indented line
      per non-empty later line, and the empty piece after the final newline. */
  lemma FootnoteLayoutLines(text: string, equations: string -> string)
    ensures Lines(FootnoteLayout(text, equations)) == FootnoteLines(Lines(equations(text))) + [""]
  {
    var ls := Lines(equations(text));
    IndentedRestShape(ls[1..]);
    var out := FootnoteLines(ls);
    assert forall i :: 0 <= i < |out| ==> '\n' !in out[i] by {
      forall i | 0 <= i < |out| ensures '\n' !in out[i] {
        if i > 0 { assert out[i] == IndentedRest(ls[1..])[i - 1]; }
      }
    }
    LinesOfTerminated(out);
  }

  // ---------------------------------------------------------------------------
  // Indentation of problem and example files

  /** A stripped line that starts an enumeration item. */
  predicate IsItem(l: string) {
    Take(l, 2) == "1." || Take(l, 2) == "- "
  }

  /** Some line of `ls` is an item once stripped. */
  predicate ItemSeen(ls: seq<string>)
    decreases |ls|
  {
    ls != [] && (ItemSeen(ls[..|ls| - 1]) || IsItem(Strip(ls[|ls| - 1])))
  }

  /** What one input line contributes, given whether an item was seen before it. */
  function IndentPiece(l: string, started: bool): seq<string> {
    var k := Strip(l);
    if k == "" then []
    else if IsItem(k) || !started then [k]
    else ["\t" + k]
  }

  /** The lines the indentation pass emits. */
  function IndentedLines(ls: seq<string>): seq<string>
    decreases |ls|
  {
    if ls == [] then []
    else IndentedLines(ls[..|ls| - 1]) + IndentPiece(ls[|ls| - 1], ItemSeen(ls[..|ls| - 1]))
  }

  /** The indentation pass: every line stripped, empty lines dropped, and
      after the first line starting with `1.` or `- ` every line that is not
      itself such an item behind a tab. */
  method IndentProblemLines(text: string) returns (r: string)
    ensures r == Terminated(IndentedLines(Lines(text)))
  {
    var lines := Lines(text);
    r := "";
    var started := false;
    for i := 0 to |lines|
      invariant r == Terminated(IndentedLines(lines[..i]))
      invariant started <==> ItemSeen(lines[..i])
    {
      assert lines[..i + 1] == lines[..i] + [lines[i]];
      IndentStep(lines[..i], lines[i]);
      var line := Strip(lines[i]);
      if line != "" {
        if IsItem(line) {
          started := true;
          r := r + (line + "\n");
        } else {
          if started {
            r := r + ("\t" + line + "\n");
          } else {
            r := r + (line + "\n");
          }
        }
      }
    }
    assert lines[..|lines|] == lines;
  }

  /** One turn of the loop of `IndentProblemLines`: the output for one more
      line, and whether an item has been seen once it is read. */
  lemma IndentStep(done: seq<string>, l: string)
    ensures Strip(l) == "" ==> Terminated(IndentedLines(done + [l])) == Terminated(IndentedLines(done))
    ensures Strip(l) != "" && (IsItem(Strip(l)) || !ItemSeen(done)) ==>
      Terminated(IndentedLines(done + [l])) == Terminated(IndentedLines(done)) + (Strip(l) + "\n")
    ensures Strip(l) != "" && !IsItem(Strip(l)) && ItemSeen(done) ==>
      Terminated(IndentedLines(done + [l])) == Terminated(IndentedLines(done)) + ("\t" + Strip(l) + "\n")
    ensures ItemSeen(done + [l]) <==> ItemSeen(done) || (Strip(l) != "" && IsItem(Strip(l)))
  {
    var ls := done + [l];
    assert ls[..|ls| - 1] == done;
    var before := IndentedLines(done);
    var k := Strip(l);
    if k == "" {
      assert IndentedLines(ls) == before + [];
      assert before + [] == before;
      assert !IsItem(k) by { assert Take(k, 2) == ""; }
    } else if IsItem(k) || !ItemSeen(done) {
      TerminatedAppend(before, k);
    } else {
      TerminatedAppend(before, "\t" + k);
    }
  }

  /** The lines kept by the pass: every line stripped, the empty ones dropped. */
  function Kept(ls: seq<string>): seq<string>
    decreases |ls|
  {
    if ls == [] then [] else Kept(ls[..|ls| - 1]) + (if Strip(ls[|ls| - 1]) == "" then [] else [Strip(ls[|ls| - 1])])
  }

  /** An emitted line without its indentation. */
  function Unindent(l: string): string {
    if |l| > 0 && l[0] == '\t' then l[1..] else l
  }

  function UnindentAll(ls: seq<string>): (r: seq<string>)
    ensures |r| == |ls|
    ensures forall i :: 0 <= i < |ls| ==> r[i] == Unindent(ls[i])
  {
    seq(|ls|, i requires 0 <= i < |ls| => Unindent(ls[i]))
  }

  /** The pass only adds tabs: without them its lines are exactly the
      stripped non-empty input lines, in order. */
  lemma {:induction false} IndentKeepsContent(ls: seq<string>)
    ensures UnindentAll(IndentedLines(ls)) == Kept(ls)
    decreases |ls|
  {
    if ls != [] {
      var init := ls[..|ls| - 1];
      var k := Strip(ls[|ls| - 1]);
      IndentKeepsContent(init);
      var piece := IndentPiece(ls[|ls| - 1], ItemSeen(init));
      assert UnindentAll(piece) == (if k == "" then [] else [k]) by {
        if k != "" {
          assert k[0] != '\t';
          assert Unindent("\t" + k) == k by { assert ("\t" + k)[1..] == k; }
        }
      }
      assert UnindentAll(IndentedLines(init) + piece) == UnindentAll(IndentedLines(init)) + UnindentAll(piece);
    }
  }

  /** Before the first item nothing is indented. */
  lemma {:induction false} NoItemNoIndent(ls: seq<string>)
    requires !ItemSeen(ls)
    ensures IndentedLines(ls) == Kept(ls)
    decreases |ls|
  {
    if ls != [] {
      NoItemNoIndent(ls[..|ls| - 1]);
    }
  }

  /** Read back line by line, the output is exactly the emitted lines. */
  lemma {:induction false} IndentedLinesRead(text: string)
    ensures Lines(Terminated(IndentedLines(Lines(text)))) == IndentedLines(Lines(text)) + [""]
  {
    var ls := Lines(text);
    IndentedLinesShape(ls);
    LinesOfTerminated(IndentedLines(ls));
  }

  lemma {:induction false} IndentedLinesShape(ls: seq<string>)
    requires forall i :: 0 <= i < |ls| ==> '\n' !in ls[i]
    ensures forall i :: 0 <= i < |IndentedLines(ls)| ==> '\n' !in IndentedLines(ls)[i] && IndentedLines(ls)[i] != ""
    decreases |ls|
  {
    if ls != [] {
      var init := ls[..|ls| - 1];
      var last := ls[|ls| - 1];
      IndentedLinesShape(init);
      StripKeepsOut(last, '\n');
      var k := Strip(last);
      assert '\n' !in "\t" + k by {
        forall j | 0 <= j < |"\t" + k| ensures ("\t" + k)[j] != '\n' {
          if j > 0 { assert ("\t" + k)[j] == k[j - 1]; }
        }
      }
      var before := IndentedLines(init);
      var piece := IndentPiece(last, ItemSeen(init));
      assert forall x | x in piece :: '\n' !in x && x != "";
      var out := IndentedLines(ls);
      assert out == before + piece;
      forall i | 0 <= i < |out| ensures '\n' !in out[i] && out[i] != "" {
        if i < |before| {
          assert out[i] == before[i];
        } else {
          assert out[i] == piece[i - |before|] && out[i] in piece;
        }
      }
    }
  }
}

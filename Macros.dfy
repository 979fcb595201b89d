/** The two- and three-argument macro passes: every `\name{a1}{a2}` (or
    `\name{a1}{a2}{a3}`) found in the snapshot is rewritten to the caller's
    delimiters around the arguments, e.g. `\inprod{a}{b}` to
    `\langle a \,, b \rangle`. The arguments are read with the brace scanner,
    so they may hold nested braces.

    `name` is the macro as it appears in the text (`\twovec`). The converter
    passes it as a regular expression with the backslash escaped, one
    character longer, and subtracts that character again when it computes
    the span; the spans below are written in terms of the text. */
module Macros {
  import opened Strings
  import opened Splice
  import opened Scanners

  /** The pattern searched for: the macro name and its opening brace. */
  function Opening(name: string): (r: string)
    ensures |r| > 0
  {
    name + "{"
  }

  /** The call sites, in text order. */
  function Calls(s: string, name: string): seq<nat> {
    Occurrences(s, Opening(name), 0)
  }

  // ---------------------------------------------------------------------------
  // Two arguments

  /** The splice for the call at `start`: the first argument right after the
      opening brace, the second two characters after the first one's end,
      the span `|name| + 4 + |a1| + |a2|`. */
  function TwoArgEdit(s: string, name: string, start: nat, open: string, mid: string, close: string): Edit {
    var q := start + |name| + 1;
    var a1 := BraceGroup(s, q);
    var a2 := BraceGroup(s, q + |a1| + 2);
    Edit(start, |name| + 4 + |a1| + |a2|, open + a1 + mid + a2 + close)
  }

  function TwoArgEdits(s: string, name: string, starts: seq<nat>, open: string, mid: string, close: string): (r: seq<Edit>)
    ensures |r| == |starts|
    ensures forall k :: 0 <= k < |r| ==> r[k] == TwoArgEdit(s, name, starts[k], open, mid, close)
  {
    seq(|starts|, k requires 0 <= k < |starts| => TwoArgEdit(s, name, starts[k], open, mid, close))
  }

  /** The result of the pass: the splices applied from the last call back to the first. */
  function TwoArgumentReplaced(s: string, name: string, open: string, mid: string, close: string): string {
    ApplyReverse(s, TwoArgEdits(s, name, Calls(s, name), open, mid, close))
  }

  /** `TwoArgumentMacroReplace`: collect the arguments of every call from the
      unchanged text, then splice from the back. When the spans do not
      overlap, every span is replaced and the text between them is kept. */
  method TwoArgumentMacroReplace(s: string, name: string, open: string, mid: string, close: string)
    returns (r: string)
    ensures r == TwoArgumentReplaced(s, name, open, mid, close)
    ensures Ordered(TwoArgEdits(s, name, Calls(s, name), open, mid, close), 0, |s|)
      ==> r == Stitched(s, TwoArgEdits(s, name, Calls(s, name), open, mid, close))
  {
    var starts := Calls(s, name);
    var edits: seq<Edit> := [];
    var k := 0;
    while k < |starts|
      invariant 0 <= k <= |starts|
      invariant edits == TwoArgEdits(s, name, starts[..k], open, mid, close)
    {
      var q := starts[k] + |name| + 1;
      var a1 := FindSubstringInBraces(s, q);
      var a2 := FindSubstringInBraces(s, q + |a1| + 2);
      var e := Edit(starts[k], |name| + 4 + |a1| + |a2|, open + a1 + mid + a2 + close);
      assert edits + [e] == TwoArgEdits(s, name, starts[..k + 1], open, mid, close) by {
        TwoArgEditAt(s, name, starts[k], a1, a2, open, mid, close);
        assert starts[..k + 1] == starts[..k] + [starts[k]];
      }
      edits := edits + [e];
      k := k + 1;
    }
    assert starts[..k] == starts;
    r := ApplyEdits(s, edits);
  }

  /** Without a call the text is returned unchanged. */
  lemma TwoArgumentNoCall(s: string, name: string, open: string, mid: string, close: string)
    requires forall k :: !OccursAt(s, Opening(name), k)
    ensures TwoArgumentReplaced(s, name, open, mid, close) == s
  {
    assert Calls(s, name) == [];
    assert TwoArgEdits(s, name, [], open, mid, close) == [];
  }

  /** The text of a two-argument call. */
  function TwoArgCall(name: string, a1: string, a2: string): string {
    name + Braced(a1) + Braced(a2)
  }

  /** With balanced arguments the splice covers exactly the call and puts
      the arguments between the delimiters. */
  lemma TwoArgSpan(p: string, name: string, a1: string, a2: string, rest: string,
                   open: string, mid: string, close: string)
    requires Balanced(a1) && Balanced(a2)
    ensures TwoArgEdit(p + TwoArgCall(name, a1, a2) + rest, name, |p|, open, mid, close)
      == Edit(|p|, |TwoArgCall(name, a1, a2)|, open + a1 + mid + a2 + close)
  {
    var s := p + TwoArgCall(name, a1, a2) + rest;
    var b1, b2 := Braced(a1), Braced(a2);
    var j := |p| + |name|;
    CallLayout(p, name, b1, b2, rest);
    BracedAt(s, j, a1, b2 + rest);
    BracedAt(s, j + |a1| + 2, a2, rest);
    TwoArgEditAt(s, name, |p|, a1, a2, open, mid, close);
  }

  /** Where the two braced arguments of a call start. */
  lemma CallLayout(p: string, name: string, b1: string, b2: string, rest: string)
    ensures (p + (name + b1 + b2) + rest)[|p| + |name|..] == b1 + (b2 + rest)
    ensures (p + (name + b1 + b2) + rest)[|p| + |name| + |b1|..] == b2 + rest
  {
    var s := p + (name + b1 + b2) + rest;
    assert s == (p + name) + (b1 + (b2 + rest));
    assert s == (p + name + b1) + (b2 + rest);
  }

  lemma TwoArgEditAt(s: string, name: string, start: nat, a1: string, a2: string,
                     open: string, mid: string, close: string)
    requires BraceGroup(s, start + |name| + 1) == a1
    requires BraceGroup(s, start + |name| + 1 + |a1| + 2) == a2
    ensures TwoArgEdit(s, name, start, open, mid, close)
      == Edit(start, |name| + 4 + |a1| + |a2|, open + a1 + mid + a2 + close)
  {
  }

  /** A text with a single call: the call is replaced and the rest is kept. */
  lemma TwoArgumentSingle(p: string, name: string, a1: string, a2: string, rest: string,
                          open: string, mid: string, close: string)
    requires Balanced(a1) && Balanced(a2)
    requires Calls(p + TwoArgCall(name, a1, a2) + rest, name) == [|p|]
    ensures TwoArgumentReplaced(p + TwoArgCall(name, a1, a2) + rest, name, open, mid, close)
      == p + (open + a1 + mid + a2 + close) + rest
  {
    var s := p + TwoArgCall(name, a1, a2) + rest;
    var e := Edit(|p|, |TwoArgCall(name, a1, a2)|, open + a1 + mid + a2 + close);
    TwoArgSpan(p, name, a1, a2, rest, open, mid, close);
    assert TwoArgEdits(s, name, [|p|], open, mid, close) == [e];
    ApplyReverseSingle(s, e);
    ApplyInside(p, TwoArgCall(name, a1, a2), rest, |TwoArgCall(name, a1, a2)|, open + a1 + mid + a2 + close);
  }

  // ---------------------------------------------------------------------------
  // Three arguments

  /** The splice for a three-argument call: the third argument starts four
      characters after the end of the first two, the span is
      `|name| + 6 + |a1| + |a2| + |a3|`. */
  function ThreeArgEdit(s: string, name: string, start: nat,
                        open: string, mid1: string, mid2: string, close: string): Edit {
    var q := start + |name| + 1;
    var a1 := BraceGroup(s, q);
    var a2 := BraceGroup(s, q + |a1| + 2);
    var a3 := BraceGroup(s, q + |a1| + |a2| + 4);
    Edit(start, |name| + 6 + |a1| + |a2| + |a3|, open + a1 + mid1 + a2 + mid2 + a3 + close)
  }

  function ThreeArgEdits(s: string, name: string, starts: seq<nat>,
                         open: string, mid1: string, mid2: string, close: string): (r: seq<Edit>)
    ensures |r| == |starts|
    ensures forall k :: 0 <= k < |r| ==> r[k] == ThreeArgEdit(s, name, starts[k], open, mid1, mid2, close)
  {
    seq(|starts|, k requires 0 <= k < |starts| => ThreeArgEdit(s, name, starts[k], open, mid1, mid2, close))
  }

  function ThreeArgumentReplaced(s: string, name: string,
                                 open: string, mid1: string, mid2: string, close: string): string {
    ApplyReverse(s, ThreeArgEdits(s, name, Calls(s, name), open, mid1, mid2, close))
  }

  /** `ThreeArgumentMacroReplace`. */
  method ThreeArgumentMacroReplace(s: string, name: string,
                                   open: string, mid1: string, mid2: string, close: string)
    returns (r: string)
    ensures r == ThreeArgumentReplaced(s, name, open, mid1, mid2, close)
    ensures Ordered(ThreeArgEdits(s, name, Calls(s, name), open, mid1, mid2, close), 0, |s|)
      ==> r == Stitched(s, ThreeArgEdits(s, name, Calls(s, name), open, mid1, mid2, close))
  {
    var starts := Calls(s, name);
    var edits: seq<Edit> := [];
    var k := 0;
    while k < |starts|
      invariant 0 <= k <= |starts|
      invariant edits == ThreeArgEdits(s, name, starts[..k], open, mid1, mid2, close)
    {
      var q := starts[k] + |name| + 1;
      var a1 := FindSubstringInBraces(s, q);
      var a2 := FindSubstringInBraces(s, q + |a1| + 2);
      var a3 := FindSubstringInBraces(s, q + |a1| + |a2| + 4);
      var e := Edit(starts[k], |name| + 6 + |a1| + |a2| + |a3|, open + a1 + mid1 + a2 + mid2 + a3 + close);
      assert edits + [e] == ThreeArgEdits(s, name, starts[..k + 1], open, mid1, mid2, close) by {
        ThreeArgEditAt(s, name, starts[k], a1, a2, a3, open, mid1, mid2, close);
        assert starts[..k + 1] == starts[..k] + [starts[k]];
      }
      edits := edits + [e];
      k := k + 1;
    }
    assert starts[..k] == starts;
    r := ApplyEdits(s, edits);
  }

  lemma ThreeArgumentNoCall(s: string, name: string, open: string, mid1: string, mid2: string, close: string)
    requires forall k :: !OccursAt(s, Opening(name), k)
    ensures ThreeArgumentReplaced(s, name, open, mid1, mid2, close) == s
  {
    assert Calls(s, name) == [];
    assert ThreeArgEdits(s, name, [], open, mid1, mid2, close) == [];
  }

  function ThreeArgCall(name: string, a1: string, a2: string, a3: string): string {
    name + Braced(a1) + Braced(a2) + Braced(a3)
  }

  lemma ThreeArgSpan(p: string, name: string, a1: string, a2: string, a3: string, rest: string,
                     open: string, mid1: string, mid2: string, close: string)
    requires Balanced(a1) && Balanced(a2) && Balanced(a3)
    ensures ThreeArgEdit(p + ThreeArgCall(name, a1, a2, a3) + rest, name, |p|, open, mid1, mid2, close)
      == Edit(|p|, |ThreeArgCall(name, a1, a2, a3)|, open + a1 + mid1 + a2 + mid2 + a3 + close)
  {
    var s := p + ThreeArgCall(name, a1, a2, a3) + rest;
    var j := |p| + |name|;
    var b1, b2, b3 := Braced(a1), Braced(a2), Braced(a3);
    assert |b1| == |a1| + 2 && |b2| == |a2| + 2;
    assert s == p + (name + b1 + b2 + b3) + rest;
    ThreeArgLayout(p, name, b1, b2, b3, rest);
    BracedAt(s, j, a1, b2 + (b3 + rest));
    BracedAt(s, j + |b1|, a2, b3 + rest);
    BracedAt(s, j + |b1| + |b2|, a3, rest);
    ThreeArgEditAt(s, name, |p|, a1, a2, a3, open, mid1, mid2, close);
  }

  /** Where the pieces of a three-argument call start. */
  lemma ThreeArgLayout(p: string, name: string, b1: string, b2: string, b3: string, rest: string)
    ensures (p + (name + b1 + b2 + b3) + rest)[|p| + |name|..] == b1 + (b2 + (b3 + rest))
    ensures (p + (name + b1 + b2 + b3) + rest)[|p| + |name| + |b1|..] == b2 + (b3 + rest)
    ensures (p + (name + b1 + b2 + b3) + rest)[|p| + |name| + |b1| + |b2|..] == b3 + rest
  {
    var s := p + (name + b1 + b2 + b3) + rest;
    assert s == (p + name) + (b1 + (b2 + (b3 + rest)));
  }

  lemma ThreeArgEditAt(s: string, name: string, start: nat, a1: string, a2: string, a3: string,
                       open: string, mid1: string, mid2: string, close: string)
    requires BraceGroup(s, start + |name| + 1) == a1
    requires BraceGroup(s, start + |name| + 1 + |a1| + 2) == a2
    requires BraceGroup(s, start + |name| + 1 + |a1| + |a2| + 4) == a3
    ensures ThreeArgEdit(s, name, start, open, mid1, mid2, close)
      == Edit(start, |name| + 6 + |a1| + |a2| + |a3|, open + a1 + mid1 + a2 + mid2 + a3 + close)
  {
  }

  lemma ThreeArgumentSingle(p: string, name: string, a1: string, a2: string, a3: string, rest: string,
                            open: string, mid1: string, mid2: string, close: string)
    requires Balanced(a1) && Balanced(a2) && Balanced(a3)
    requires Calls(p + ThreeArgCall(name, a1, a2, a3) + rest, name) == [|p|]
    ensures ThreeArgumentReplaced(p + ThreeArgCall(name, a1, a2, a3) + rest, name, open, mid1, mid2, close)
      == p + (open + a1 + mid1 + a2 + mid2 + a3 + close) + rest
  {
    var s := p + ThreeArgCall(name, a1, a2, a3) + rest;
    var text := open + a1 + mid1 + a2 + mid2 + a3 + close;
    var e := Edit(|p|, |ThreeArgCall(name, a1, a2, a3)|, text);
    ThreeArgSpan(p, name, a1, a2, a3, rest, open, mid1, mid2, close);
    assert ThreeArgEdits(s, name, [|p|], open, mid1, mid2, close) == [e];
    ApplyReverseSingle(s, e);
    ApplyInside(p, ThreeArgCall(name, a1, a2, a3), rest, |ThreeArgCall(name, a1, a2, a3)|, text);
  }
}

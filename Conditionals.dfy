/** The conditional-resolution pass: every `\if<qualifier> ... \else ... \fi`
    block found in the snapshot is replaced, from the last block to the first,
    by the branch its flag selects. */
module Conditionals {
  import opened Strings
  import opened Splice
  import opened Scanners

  /** A match of `\if<qualifier>`: where it starts and the qualifier read. */
  datatype IfMatch = IfMatch(start: nat, qualifier: string)
  {
    /** Where the block's body starts, just after the qualifier. */
    function BodyStart(): nat { start + 3 + |qualifier| }
  }

  /** The bare `\if` (no qualifier) has no length in the source and makes the
      pass fail; every match handled carries a qualifier. */
  predicate Qualified(ms: seq<IfMatch>) {
    forall k :: 0 <= k < |ms| ==> ms[k].qualifier != ""
  }

  /** The flags whose block keeps its first branch. */
  const FirstBranchFlags: set<string> :=
    {"Afourpaper", "choicecolor", "online", "containsLagrangianmechanics", "containsCM"}

  /** The policy chain: A4 paper, colour choice, the online edition and the two
      `contains` flags of the physics books keep the `\if` branch; solutions,
      problem sets and every other flag keep the `\else` branch. */
  function KeepsFirst(q: string): (r: bool)
    ensures r <==> q in FirstBranchFlags
  {
    if q == "Afourpaper" || q == "choicecolor" || q == "online" then true
    else if q == "includesolutions" || q == "problemset" then false
    else if q == "containsLagrangianmechanics" || q == "containsCM" then true
    else false
  }

  /** The branch kept for qualifier `q`. */
  function Kept(q: string, a0: string, a1: string): string {
    if KeepsFirst(q) then a0 else a1
  }

  /** The length of the block as the source reckons it from the branch texts:
      `\if`, the qualifier, the first text and `\fi`, plus `\else` and the
      second text when the second text is not empty. */
  function SpanLength(q: string, a0: string, a1: string): nat {
    6 + |q| + |a0| + (if a1 != "" then 5 + |a1| else 0)
  }

  /** One block resolved against the current text. */
  function ResolveOne(s: string, m: IfMatch): string {
    var (a0, a1) := ConditionalBranches(s, m.BodyStart());
    Apply(s, Edit(m.start, SpanLength(m.qualifier, a0, a1), Kept(m.qualifier, a0, a1)))
  }

  /** All blocks, the last match first, each one read from the text left by
      the blocks after it. */
  function ResolveAll(s: string, ms: seq<IfMatch>): string
    decreases |ms|
  {
    if ms == [] then s else ResolveAll(ResolveOne(s, ms[|ms| - 1]), ms[..|ms| - 1])
  }

  lemma ResolveAllStep(total: string, r: string, ms: seq<IfMatch>, i: nat, r': string)
    requires i < |ms|
    requires total == ResolveAll(r, ms[..i + 1]) && r' == ResolveOne(r, ms[i])
    ensures total == ResolveAll(r', ms[..i])
  {
    assert ms[..i + 1][..i] == ms[..i];
  }

  /** One turn of the converter's loop: block `i` resolved from the branches
      the scanner found in the current text. */
  lemma ResolveStep(total: string, r: string, ms: seq<IfMatch>, i: nat,
                    a0: string, a1: string, kept: string, endpos: nat)
    requires i < |ms| && total == ResolveAll(r, ms[..i + 1])
    requires (a0, a1) == ConditionalBranches(r, ms[i].start + 3 + |ms[i].qualifier|)
    requires kept == Kept(ms[i].qualifier, a0, a1)
    requires endpos == ms[i].start + SpanLength(ms[i].qualifier, a0, a1)
    ensures total == ResolveAll(Take(r, ms[i].start) + kept + Drop(r, endpos), ms[..i])
  {
    ResolveOneSpan(r, ms[i], a0, a1, Take(r, ms[i].start), Drop(r, endpos));
    ResolveAllStep(total, r, ms, i, Take(r, ms[i].start) + kept + Drop(r, endpos));
  }

  /** The pass as the converter runs it. */
  method ResolveConditionals(s: string, ms: seq<IfMatch>) returns (r: string)
    requires Qualified(ms)
    ensures r == ResolveAll(s, ms)
  {
    r := s;
    var i := |ms|;
    ghost var total := ResolveAll(s, ms);
    assert ms[..i] == ms;
    while i > 0
      invariant 0 <= i <= |ms|
      invariant total == ResolveAll(r, ms[..i])
    {
      i := i - 1;
      var start := ms[i].start;
      var q := ms[i].qualifier;
      var a0, a1 := FindMatchingEndif(r, start + 3 + |q|);
      var endpos := start + 6 + |q| + |a0|;
      if a1 != "" {
        endpos := endpos + 5 + |a1|;
      }
      var kept;
      if q == "Afourpaper" || q == "choicecolor" || q == "online" {
        kept := a0;
      } else if q == "includesolutions" || q == "problemset" {
        kept := a1;
      } else if q == "containsLagrangianmechanics" || q == "containsCM" {
        kept := a0;
      } else {
        kept := a1;
      }
      ResolveStep(total, r, ms, i, a0, a1, kept, endpos);
      r := Take(r, start) + kept + Drop(r, endpos);
    }
    assert ms[..0] == [];
  }

  // ---------------------------------------------------------------------------
  // What the pass does to well-formed blocks

  /** The text of one block with balanced branches. */
  function Block(q: string, x: string, y: Option<string>): string {
    "\\if" + q + x + (if y.Some? then "\\else" + y.value else "") + "\\fi"
  }

  /** The scan of a block body with balanced branches. */
  lemma ScanOfBlock(p: string, q: string, x: string, y: Option<string>, rest: string)
    requires IfBalanced(x) && (y.Some? ==> IfBalanced(y.value))
    ensures EndifScan(Drop(p + Block(q, x, y) + rest, |p| + 3 + |q|), 0, None, "")
      == if y.Some? then (Some(x), y.value) else (None, x)
  {
    var s := p + Block(q, x, y) + rest;
    if y.Some? {
      assert Drop(s, |p| + 3 + |q|) == x + "\\else" + y.value + "\\fi" + rest;
      ScanWithElse(x, y.value, rest);
    } else {
      assert Drop(s, |p| + 3 + |q|) == x + "\\fi" + rest;
      ScanWithoutElse(x, rest);
    }
  }

  /** The branches `FindMatchingEndif` reports for a block with balanced branches. */
  lemma BranchesOfBlock(p: string, q: string, x: string, y: Option<string>, rest: string)
    requires IfBalanced(x) && (y.Some? ==> IfBalanced(y.value))
    ensures ConditionalBranches(p + Block(q, x, y) + rest, |p| + 3 + |q|)
      == if y.Some? && x != "" then (x, y.value) else if y.Some? then (y.value, "") else (x, "")
  {
    ScanOfBlock(p, q, x, y, rest);
  }

  lemma BranchesOfEmptyThen(p: string, q: string, y: string, rest: string)
    requires IfBalanced(y)
    ensures ConditionalBranches(p + Block(q, "", Some(y)) + rest, |p| + 3 + |q|) == (y, "")
  {
    EmptyBalanced();
    ScanOfBlock(p, q, "", Some(y), rest);
  }

  lemma DropInside(p: string, b: string, rest: string, k: nat)
    requires k <= |b|
    ensures Drop(p + b + rest, |p| + k) == b[k..] + rest
  {
    assert (p + b + rest)[|p| + k..] == b[k..] + rest;
  }

  /** Resolving a block whose branches and surroundings are known. */
  lemma ResolveOneSpan(s: string, m: IfMatch, a0: string, a1: string, p: string, rest: string)
    requires ConditionalBranches(s, m.BodyStart()) == (a0, a1)
    requires Take(s, m.start) == p && Drop(s, m.start + SpanLength(m.qualifier, a0, a1)) == rest
    ensures ResolveOne(s, m) == p + Kept(m.qualifier, a0, a1) + rest
  {
    var e := Edit(m.start, SpanLength(m.qualifier, a0, a1), Kept(m.qualifier, a0, a1));
    assert ResolveOne(s, m) == Apply(s, e);
  }

  /** Resolving a block that starts right after `p`. */
  lemma ResolveAfter(s: string, p: string, q: string, a0: string, a1: string, rest: string)
    requires ConditionalBranches(s, |p| + 3 + |q|) == (a0, a1)
    requires Take(s, |p|) == p && Drop(s, |p| + SpanLength(q, a0, a1)) == rest
    ensures ResolveOne(s, IfMatch(|p|, q)) == p + Kept(q, a0, a1) + rest
  {
    var m := IfMatch(|p|, q);
    assert m.BodyStart() == |p| + 3 + |q| && m.start == |p| && m.qualifier == q;
    ResolveOneSpan(s, m, a0, a1, p, rest);
  }

  /** A block without `\else` becomes its text when the flag keeps the first
      branch, and disappears otherwise. */
  lemma ResolveWithoutElse(p: string, q: string, x: string, rest: string)
    requires IfBalanced(x)
    ensures ResolveOne(p + Block(q, x, None) + rest, IfMatch(|p|, q)) == p + Kept(q, x, "") + rest
  {
    var s := p + Block(q, x, None) + rest;
    ScanOfBlock(p, q, x, None, rest);
    assert Take(s, |p|) == p;
    assert Drop(s, |p| + SpanLength(q, x, "")) == rest;
    ResolveAfter(s, p, q, x, "", rest);
  }

  /** A block with two non-empty branches becomes the branch the flag selects. */
  lemma ResolveWithElse(p: string, q: string, x: string, y: string, rest: string)
    requires IfBalanced(x) && IfBalanced(y) && x != "" && y != ""
    ensures ResolveOne(p + Block(q, x, Some(y)) + rest, IfMatch(|p|, q)) == p + Kept(q, x, y) + rest
  {
    var s := p + Block(q, x, Some(y)) + rest;
    ScanOfBlock(p, q, x, Some(y), rest);
    assert Take(s, |p|) == p;
    assert Drop(s, |p| + SpanLength(q, x, y)) == rest;
    ResolveAfter(s, p, q, x, y, rest);
  }

  /** Two matches: the second is resolved first. */
  lemma ResolveAllTwo(s: string, m1: IfMatch, m2: IfMatch)
    ensures ResolveAll(s, [m1, m2]) == ResolveOne(ResolveOne(s, m2), m1)
  {
    var ms := [m1, m2];
    assert ms[..1] == [m1] && ms[1] == m2;
    assert ResolveAll(s, ms) == ResolveAll(ResolveOne(s, m2), [m1]);
    assert [m1][..0] == [] && [m1][0] == m1;
    assert ResolveAll(ResolveOne(s, m2), [m1]) == ResolveAll(ResolveOne(ResolveOne(s, m2), m1), []);
  }

  /** Two blocks one after the other: each is resolved in its place and the
      text around them is kept. */
  lemma ResolveTwoBlocks(p: string, q1: string, x1: string, y1: string, mid: string,
                         q2: string, x2: string, y2: string, rest: string)
    requires IfBalanced(x1) && IfBalanced(y1) && IfBalanced(x2) && IfBalanced(y2)
    requires x1 != "" && y1 != "" && x2 != "" && y2 != ""
    ensures ResolveAll(p + Block(q1, x1, Some(y1)) + mid + Block(q2, x2, Some(y2)) + rest,
                       [IfMatch(|p|, q1), IfMatch(|p + Block(q1, x1, Some(y1)) + mid|, q2)])
      == p + Kept(q1, x1, y1) + mid + Kept(q2, x2, y2) + rest
  {
    var b1 := Block(q1, x1, Some(y1));
    var b2 := Block(q2, x2, Some(y2));
    var k1 := Kept(q1, x1, y1);
    var k2 := Kept(q2, x2, y2);
    var m1 := IfMatch(|p|, q1);
    var m2 := IfMatch(|p + b1 + mid|, q2);
    var s := p + b1 + mid + b2 + rest;
    var t := p + b1 + (mid + (k2 + rest));
    assert ResolveOne(s, m2) == t by {
      ResolveWithElse(p + b1 + mid, q2, x2, y2, rest);
      RegroupFive(p, b1, mid, k2, rest);
    }
    assert ResolveOne(t, m1) == p + k1 + mid + k2 + rest by {
      ResolveWithElse(p, q1, x1, y1, mid + (k2 + rest));
      RegroupFive(p, k1, mid, k2, rest);
    }
    ResolveAllTwo(s, m1, m2);
  }

  lemma NestedInner(p: string, q1: string, x1: string, inner: string, x2: string, rest: string)
    ensures p + "\\if" + q1 + x1 + inner + x2 + "\\fi" + rest
      == (p + "\\if" + q1 + x1) + inner + (x2 + "\\fi" + rest)
  {
  }

  lemma NestedOuter(p: string, q1: string, x1: string, k: string, x2: string, rest: string)
    ensures (p + "\\if" + q1 + x1) + k + (x2 + "\\fi" + rest)
      == p + Block(q1, x1 + k + x2, None) + rest
  {
  }

  /** A block nested in the first branch of another: the inner block comes
      later in the match list, so it is resolved first and the outer block
      then reads the kept text in its place. */
  lemma ResolveNested(p: string, q1: string, x1: string, q2: string, y: string,
                      x2: string, rest: string)
    requires IfBalanced(y) && IfBalanced(x1 + Kept(q2, y, "") + x2)
    ensures ResolveAll(p + "\\if" + q1 + x1 + Block(q2, y, None) + x2 + "\\fi" + rest,
                       [IfMatch(|p|, q1), IfMatch(|p + "\\if" + q1 + x1|, q2)])
      == p + Kept(q1, x1 + Kept(q2, y, "") + x2, "") + rest
  {
    var m1 := IfMatch(|p|, q1);
    var m2 := IfMatch(|p + "\\if" + q1 + x1|, q2);
    var s := p + "\\if" + q1 + x1 + Block(q2, y, None) + x2 + "\\fi" + rest;
    ResolveAllTwo(s, m1, m2);
    var pre := p + "\\if" + q1 + x1;
    var post := x2 + "\\fi" + rest;
    NestedInner(p, q1, x1, Block(q2, y, None), x2, rest);
    ResolveWithoutElse(pre, q2, y, post);
    var k2 := Kept(q2, y, "");
    var x := x1 + k2 + x2;
    NestedOuter(p, q1, x1, k2, x2, rest);
    ResolveWithoutElse(p, q1, x, rest);
  }

  // ---------------------------------------------------------------------------
  // An empty branch next to `\else`

  /** As written: with an empty `\if` branch the scanner hands the `\else`
      text back as the first branch and reports an empty second one, so the
      span loses the five characters of `\else`; the last two characters of
      the `\else` text and the `\fi` stay in the output, and a first-branch
      flag keeps the `\else` text. */
  lemma EmptyThenLeaks(p: string, q: string, y: string, rest: string)
    requires IfBalanced(y) && |y| >= 2
    ensures ResolveOne(p + Block(q, "", Some(y)) + rest, IfMatch(|p|, q))
      == p + Kept(q, y, "") + y[|y| - 2..] + "\\fi" + rest
  {
    var b := Block(q, "", Some(y));
    var s := p + b + rest;
    var n := SpanLength(q, y, "");
    var tail := y[|y| - 2..] + "\\fi";
    assert Drop(s, |p| + n) == tail + rest by {
      var h := "\\if" + q + "\\else";
      assert b == h + (y + "\\fi");
      assert b[n..] == (y + "\\fi")[|y| - 2..] == tail;
      DropInside(p, b, rest, n);
    }
    assert Take(s, |p|) == p;
    BranchesOfEmptyThen(p, q, y, rest);
    ResolveAfter(s, p, q, y, "", tail + rest);
    assert p + Kept(q, y, "") + (tail + rest) == p + Kept(q, y, "") + y[|y| - 2..] + "\\fi" + rest;
  }

  /** A concrete instance: the solutions flag keeps the `\else` branch of
      `\ifincludesolutions\else Hello\fi`, and the converter leaves `lo\fi`. */
  lemma EmptyThenExample()
    ensures ResolveOne(Block("includesolutions", "", Some(" Hello")), IfMatch(0, "includesolutions"))
      == "lo\\fi"
  {
    var q := "includesolutions";
    var y := " Hello";
    SolutionsHello();
    EmptyThenLeaks("", q, y, "");
    EmptyAround(Block(q, "", Some(y)), Kept(q, y, ""), y[|y| - 2..] + "\\fi");
  }

  /** The facts about the example's texts that the lemma above needs. */
  lemma SolutionsHello()
    ensures Kept("includesolutions", " Hello", "") == ""
    ensures IfBalanced(" Hello") && |" Hello"| >= 2
    ensures "" + " Hello"[|" Hello"| - 2..] + "\\fi" == "lo\\fi"
  {
    assert !KeepsFirst("includesolutions");
    var y := " Hello";
    assert forall i :: 0 <= i < |y| ==> y[i] != '\\';
    PlainUnmarked(y, |y|);
    FlatIfBalanced(y);
    assert y[|y| - 2..] == "lo";
  }

  lemma EmptyAround(b: string, k: string, t: string)
    ensures "" + b + "" == b
    ensures "" + k + t == (k + t) && ("" + k) + t == k + t
  {
  }

  /** As written: an empty `\else` branch also loses the `\else` from the
      span; `se\fi` is left after the kept text. */
  lemma EmptyElseLeaks(p: string, q: string, x: string, rest: string)
    requires IfBalanced(x) && x != ""
    ensures ResolveOne(p + Block(q, x, Some("")) + rest, IfMatch(|p|, q))
      == p + Kept(q, x, "") + "se\\fi" + rest
  {
    var s := p + Block(q, x, Some("")) + rest;
    EmptyBalanced();
    ScanOfBlock(p, q, x, Some(""), rest);
    var head := "\\if" + q + x + "\\el";
    assert s == p + head + ("se\\fi" + rest);
    assert Take(s, |p|) == p;
    assert Drop(s, |p| + SpanLength(q, x, "")) == "se\\fi" + rest;
    ResolveAfter(s, p, q, x, "", "se\\fi" + rest);
  }

  /** Corrected: the branches together with whether a top-level `\else` was
      met, so that an empty branch is still told apart from a missing one. */
  function IntendedBranches(s: string, start: nat): (string, string, bool)
  {
    var (first, cur) := EndifScan(Drop(s, start), 0, None, "");
    if first.Some? then (first.value, cur, true) else (cur, "", false)
  }

  /** Corrected: the span covers `\else` whenever one was met. */
  function IntendedResolveOne(s: string, m: IfMatch): string {
    var (a0, a1, hasElse) := IntendedBranches(s, m.BodyStart());
    var n := 6 + |m.qualifier| + |a0| + (if hasElse then 5 + |a1| else 0);
    Apply(s, Edit(m.start, n, Kept(m.qualifier, a0, a1)))
  }

  /** Corrected: every block with balanced branches, empty or not, is replaced by
      exactly the branch its flag selects. */
  lemma IntendedResolve(p: string, q: string, x: string, y: Option<string>, rest: string)
    requires IfBalanced(x) && (y.Some? ==> IfBalanced(y.value))
    ensures IntendedResolveOne(p + Block(q, x, y) + rest, IfMatch(|p|, q))
      == p + Kept(q, x, if y.Some? then y.value else "") + rest
  {
    var s := p + Block(q, x, y);
    var b := p + "\\if" + q;
    if y.Some? {
      assert p + Block(q, x, y) + rest == b + (x + "\\else" + y.value + "\\fi" + rest);
      assert Drop(p + Block(q, x, y) + rest, |b|) == x + "\\else" + y.value + "\\fi" + rest;
      ScanWithElse(x, y.value, rest);
      ApplyInside(p, Block(q, x, y), rest, 6 + |q| + |x| + 5 + |y.value|, Kept(q, x, y.value));
    } else {
      assert p + Block(q, x, y) + rest == b + (x + "\\fi" + rest);
      assert Drop(p + Block(q, x, y) + rest, |b|) == x + "\\fi" + rest;
      ScanWithoutElse(x, rest);
      ApplyInside(p, Block(q, x, y), rest, 6 + |q| + |x|, Kept(q, x, ""));
    }
  }

  /** The correction changes nothing where both branches are non-empty. */
  lemma IntendedAgrees(p: string, q: string, x: string, y: string, rest: string)
    requires IfBalanced(x) && IfBalanced(y) && x != "" && y != ""
    ensures IntendedResolveOne(p + Block(q, x, Some(y)) + rest, IfMatch(|p|, q))
      == ResolveOne(p + Block(q, x, Some(y)) + rest, IfMatch(|p|, q))
  {
    IntendedResolve(p, q, x, Some(y), rest);
    ResolveWithElse(p, q, x, y, rest);
  }
}

/** The pass over one-argument commands `\name{arg}`: `\emph`, `\textit` and
    `\underline` become `*arg*`, `\textbf` becomes `**arg**` and `\mbox`
    becomes `\text{arg}`; every other command is left alone. The arguments
    are read from the text before any splice, and the splices are made from
    the last command back to the first. */
module Commands {
  import opened Strings
  import opened Splice
  import opened Scanners

  /** A match of `\name{`: where its backslash is, and the name. */
  datatype Command = Command(start: nat, name: string)
  {
    /** The index just after the opening brace. */
    function ArgStart(): nat { start + |name| + 2 }
  }

  /** The commands the pass rewrites. */
  predicate Known(name: string) {
    name == "emph" || name == "textit" || name == "underline" || name == "textbf" || name == "mbox"
  }

  /** The text a command with argument `arg` becomes; `None` for the
      commands the pass leaves alone. */
  function Rewrite(name: string, arg: string): (r: Option<string>)
    ensures r.Some? <==> Known(name)
    ensures r.Some? ==> |arg| + 2 <= |r.value| <= |arg| + 7
  {
    if name == "emph" || name == "textit" || name == "underline" then Some("*" + arg + "*")
    else if name == "textbf" then Some("**" + arg + "**")
    else if name == "mbox" then Some("\\text{" + arg + "}")
    else None
  }

  /** The span the pass replaces: the backslash, the name, the braces and
      the argument read from `s`. */
  function CallEnd(s: string, c: Command): nat {
    c.start + 3 + |c.name| + |BraceGroup(s, c.ArgStart())|
  }

  /** The splice for one command: none when the pass leaves it alone. */
  function CommandEdit(s: string, c: Command): seq<Edit> {
    var arg := BraceGroup(s, c.ArgStart());
    match Rewrite(c.name, arg)
    case None => []
    case Some(t) => [Edit(c.start, 3 + |c.name| + |arg|, t)]
  }

  function CommandEdits(s: string, cs: seq<Command>): seq<Edit> {
    if cs == [] then [] else CommandEdit(s, cs[0]) + CommandEdits(s, cs[1..])
  }

  /** The outcome of the pass on the matches `cs` of `s`. */
  function CommandsApplied(s: string, cs: seq<Command>): string {
    ApplyReverse(s, CommandEdits(s, cs))
  }

  /** No command contains another: each span ends inside the text and before
      the next command starts. */
  predicate Separate(s: string, cs: seq<Command>) {
    && (forall i :: 0 <= i < |cs| ==> CallEnd(s, cs[i]) <= |s|)
    && (forall i, j :: 0 <= i < j < |cs| ==> CallEnd(s, cs[i]) <= cs[j].start)
  }

  lemma CommandEditsStep(s: string, cs: seq<Command>, i: nat)
    requires i < |cs|
    ensures CommandEdits(s, cs[i..]) == CommandEdit(s, cs[i]) + CommandEdits(s, cs[i + 1..])
  {
    assert cs[i..][1..] == cs[i + 1..];
  }

  /** Separate commands give ordered splices. */
  lemma {:induction false} CommandEditsOrdered(s: string, cs: seq<Command>, from: nat)
    requires from <= |s|
    requires forall i :: 0 <= i < |cs| ==> from <= cs[i].start && CallEnd(s, cs[i]) <= |s|
    requires forall i, j :: 0 <= i < j < |cs| ==> CallEnd(s, cs[i]) <= cs[j].start
    ensures Ordered(CommandEdits(s, cs), from, |s|)
    decreases |cs|
  {
    if cs != [] {
      var c := cs[0];
      var tail := cs[1..];
      assert forall i :: 0 <= i < |tail| ==> tail[i] == cs[i + 1];
      CommandEditsOrdered(s, tail, CallEnd(s, c));
      var rest := CommandEdits(s, tail);
      var head := CommandEdit(s, c);
      assert forall e :: e in head ==> from <= e.start && e.End() <= CallEnd(s, c);
      assert forall j :: 0 <= j < |rest| ==> CallEnd(s, c) <= rest[j].start;
    }
  }

  /** One turn of the splicing loop of `CommandPass`. */
  lemma CommandStep(s: string, cs: seq<Command>, arg: string, i: nat, prev: string, r: string)
    requires i < |cs| && arg == BraceGroup(s, cs[i].ArgStart())
    requires prev == ApplyReverse(s, CommandEdits(s, cs[i + 1..]))
    requires Rewrite(cs[i].name, arg).None? ==> r == prev
    requires Rewrite(cs[i].name, arg).Some? ==>
      r == Take(prev, cs[i].start) + Rewrite(cs[i].name, arg).value
           + Drop(prev, cs[i].start + 3 + |cs[i].name| + |arg|)
    ensures r == ApplyReverse(s, CommandEdits(s, cs[i..]))
  {
    CommandEditsStep(s, cs, i);
    ApplyReverseAppend(s, CommandEdit(s, cs[i]), CommandEdits(s, cs[i + 1..]));
    match Rewrite(cs[i].name, arg)
    case None =>
      assert CommandEdit(s, cs[i]) == [];
      assert CommandEdits(s, cs[i..]) == CommandEdits(s, cs[i + 1..]);
    case Some(t) =>
      ApplyReverseSingle(prev, Edit(cs[i].start, 3 + |cs[i].name| + |arg|, t));
  }

  /** The pass: read every argument from the unchanged text, then walk the
      commands from the last to the first and splice in their rewrites. */
  method CommandPass(s: string, cs: seq<Command>) returns (r: string)
    ensures r == CommandsApplied(s, cs)
    ensures Separate(s, cs) ==> Ordered(CommandEdits(s, cs), 0, |s|)
                                && r == Stitched(s, CommandEdits(s, cs))
  {
    var args := CollectArguments(s, cs);
    r := s;
    var i := |cs|;
    while i > 0
      invariant 0 <= i <= |cs|
      invariant r == ApplyReverse(s, CommandEdits(s, cs[i..]))
    {
      i := i - 1;
      ghost var prev := r;
      var c := cs[i];
      var arg := args[i];
      var endpos := c.start + 3 + |c.name| + |arg|;
      if c.name == "emph" || c.name == "textit" || c.name == "underline" {
        r := Take(r, c.start) + ("*" + arg + "*") + Drop(r, endpos);
      } else if c.name == "textbf" {
        r := Take(r, c.start) + ("**" + arg + "**") + Drop(r, endpos);
      } else if c.name == "mbox" {
        r := Take(r, c.start) + ("\\text{" + arg + "}") + Drop(r, endpos);
      }
      CommandStep(s, cs, arg, i, prev, r);
    }
    assert cs[0..] == cs;
    if Separate(s, cs) {
      CommandEditsOrdered(s, cs, 0);
      ApplyReverseIsStitched(s, CommandEdits(s, cs));
    }
  }

  /** The first loop of the pass: the argument of every match, read from
      the unchanged text. */
  method CollectArguments(s: string, cs: seq<Command>) returns (args: seq<string>)
    ensures |args| == |cs|
    ensures forall j :: 0 <= j < |cs| ==> args[j] == BraceGroup(s, cs[j].ArgStart())
  {
    args := [];
    for k := 0 to |cs|
      invariant |args| == k
      invariant forall j :: 0 <= j < k ==> args[j] == BraceGroup(s, cs[j].ArgStart())
    {
      var a := FindSubstringInBraces(s, cs[k].start + |cs[k].name| + 2);
      args := args + [a];
    }
  }

  /** The text of a one-argument command. */
  function CommandCall(name: string, arg: string): string {
    "\\" + name + Braced(arg)
  }

  /** A single command with a balanced argument becomes its rewrite, and the
      text around it is kept. */
  lemma SingleCommand(p: string, name: string, arg: string, rest: string)
    requires Balanced(arg)
    requires Rewrite(name, arg).Some?
    ensures CommandsApplied(p + CommandCall(name, arg) + rest, [Command(|p|, name)])
      == p + Rewrite(name, arg).value + rest
  {
    var s := p + CommandCall(name, arg) + rest;
    assert s == (p + "\\" + name) + (Braced(arg) + rest);
    BracedAt(s, |p| + 1 + |name|, arg, rest);
    var e := Edit(|p|, 3 + |name| + |arg|, Rewrite(name, arg).value);
    assert CommandEdits(s, [Command(|p|, name)]) == [e] by {
      assert [Command(|p|, name)][1..] == [];
    }
    ApplyReverseSingle(s, e);
    ApplyInside(p, CommandCall(name, arg), rest, 3 + |name| + |arg|, Rewrite(name, arg).value);
  }

  /** Commands the pass does not know are left as they are. */
  lemma {:induction false} UnknownCommandsKept(s: string, cs: seq<Command>)
    requires forall i :: 0 <= i < |cs| ==> !Known(cs[i].name)
    ensures CommandsApplied(s, cs) == s
  {
    assert CommandEdits(s, cs) == [] by { NoEditsForUnknown(s, cs); }
  }

  lemma {:induction false} NoEditsForUnknown(s: string, cs: seq<Command>)
    requires forall i :: 0 <= i < |cs| ==> !Known(cs[i].name)
    ensures CommandEdits(s, cs) == []
    decreases |cs|
  {
    if cs != [] {
      assert CommandEdit(s, cs[0]) == [];
      assert forall i :: 0 <= i < |cs[1..]| ==> cs[1..][i] == cs[i + 1];
      NoEditsForUnknown(s, cs[1..]);
    }
  }

  // ---------------------------------------------------------------------------
  // Balanced arguments

  /** Text without braces is balanced. */
  lemma {:induction false} BraceFreeBalanced(w: string)
    requires '{' !in w && '}' !in w
    ensures Balanced(w)
    decreases |w|
  {
    if w != [] {
      assert '{' !in w[1..] && '}' !in w[1..] by {
        assert forall c :: c in w[1..] ==> c in w;
      }
      BraceFreeBalanced(w[1..]);
    }
    forall k | 0 <= k < |w| ensures w[k] != '}' {
      assert w[k] in w;
    }
  }

  /** Balanced texts stay balanced side by side. */
  lemma BalancedAppend(a: string, b: string)
    requires Balanced(a) && Balanced(b)
    ensures Balanced(a + b)
  {
    DepthAppend(a, b);
    var w := a + b;
    forall k | 0 <= k < |w| ensures !(w[k] == '}' && Depth(w[..k]) <= 0) {
      if k < |a| {
        assert w[..k] == a[..k];
        assert w[k] == a[k];
      } else {
        assert w[..k] == a + b[..k - |a|];
        DepthAppend(a, b[..k - |a|]);
        assert w[k] == b[k - |a|];
      }
    }
  }

  /** A balanced text in braces is balanced. */
  lemma BalancedBraced(a: string)
    requires Balanced(a)
    ensures Balanced(Braced(a))
  {
    var w := Braced(a);
    DepthAppend("{" + a, "}");
    DepthAppend("{", a);
    forall k | 0 <= k < |w| ensures !(w[k] == '}' && Depth(w[..k]) <= 0) {
      if 0 < k {
        assert w[..k] == "{" + a[..k - 1];
        DepthAppend("{", a[..k - 1]);
        TransparentNonNegative(a, 0, k - 1);
      }
    }
  }

  // ---------------------------------------------------------------------------
  // Nested commands

  /** Every rewrite keeps a balanced argument balanced. */
  lemma RewriteBalanced(name: string, arg: string)
    requires Balanced(arg) && Rewrite(name, arg).Some?
    ensures Balanced(Rewrite(name, arg).value)
  {
    if name == "emph" || name == "textit" || name == "underline" {
      BraceFreeBalanced("*");
      BalancedAppend("*", arg);
      BalancedAppend("*" + arg, "*");
    } else if name == "textbf" {
      BraceFreeBalanced("**");
      BalancedAppend("**", arg);
      BalancedAppend("**" + arg, "**");
    } else {
      BraceFreeBalanced("\\text");
      BalancedBraced(arg);
      BalancedAppend("\\text", Braced(arg));
      assert "\\text" + Braced(arg) == "\\text{" + arg + "}";
    }
  }

  /** The ways the text `p + \n1{\n2{x}} + rest` splits around its parts. */
  lemma NestedLayout(p: string, n1: string, n2: string, x: string, rest: string)
    ensures var s := p + CommandCall(n1, CommandCall(n2, x)) + rest;
      && s == (p + "\\" + n1) + (Braced(CommandCall(n2, x)) + rest)
      && s == (p + "\\" + n1 + "{") + CommandCall(n2, x) + ("}" + rest)
      && s == (p + "\\" + n1 + "{" + "\\" + n2) + (Braced(x) + ("}" + rest))
  {
    var inner := CommandCall(n2, x);
    CallSplit(p, "\\", n1, Braced(inner), rest);
    CallLayout(p, "\\", n1, "{", inner, "}", rest);
    CallSplit(p + "\\" + n1 + "{", "\\", n2, Braced(x), "}" + rest);
  }

  /** How a call splits at its braced argument. */
  lemma CallSplit(a: string, b: string, c: string, m: string, rest: string)
    ensures a + (b + c + m) + rest == (a + b + c) + (m + rest)
  {
  }

  /** How a call splits around the text inside its braces. */
  lemma CallLayout(a: string, b: string, c: string, lb: string, m: string, rb: string, rest: string)
    ensures a + (b + c + (lb + m + rb)) + rest == (a + b + c + lb) + m + (rb + rest)
  {
  }

  /** The two matches the pass finds in `p + \n1{\n2{x}} + rest`. */
  function NestedMatches(p: string, n1: string, n2: string): seq<Command> {
    [Command(|p|, n1), Command(|p| + |n1| + 2, n2)]
  }

  /** The two arguments the pass reads from the unchanged text. */
  lemma NestedArguments(p: string, n1: string, n2: string, x: string, rest: string)
    requires Balanced(x) && '{' !in n2 && '}' !in n2
    ensures var s := p + CommandCall(n1, CommandCall(n2, x)) + rest;
      && BraceGroup(s, |p| + |n1| + 2) == CommandCall(n2, x)
      && BraceGroup(s, |p| + |n1| + |n2| + 4) == x
  {
    var s := p + CommandCall(n1, CommandCall(n2, x)) + rest;
    assert Balanced(CommandCall(n2, x)) by {
      assert '{' !in "\\" + n2 && '}' !in "\\" + n2;
      BraceFreeBalanced("\\" + n2);
      BalancedBraced(x);
      BalancedAppend("\\" + n2, Braced(x));
    }
    NestedLayout(p, n1, n2, x, rest);
    BracedAt(s, |p| + 1 + |n1|, CommandCall(n2, x), rest);
    BracedAt(s, |p| + |n1| + |n2| + 3, x, "}" + rest);
  }

  /** The inner splice leaves the outer command around the inner rewrite. */
  lemma SpliceInner(p: string, n1: string, n2: string, x: string, rest: string, w2: string)
    ensures Apply(p + CommandCall(n1, CommandCall(n2, x)) + rest, Edit(|p| + |n1| + 2, 3 + |n2| + |x|, w2))
      == p + CommandCall(n1, w2) + rest
  {
    NestedLayout(p, n1, n2, x, rest);
    var q := p + "\\" + n1 + "{";
    ApplyInside(q, CommandCall(n2, x), "}" + rest, 3 + |n2| + |x|, w2);
    CallLayout(p, "\\", n1, "{", w2, "}", rest);
  }

  /** The outer splice, measured with an argument longer than the one now
      in place, runs past the call into `rest`. */
  lemma SpliceOuterStale(p: string, n1: string, stale: string, w2: string, rest: string, w1: string)
    requires |w2| <= |stale|
    ensures Apply(p + CommandCall(n1, w2) + rest, Edit(|p|, 3 + |n1| + |stale|, w1))
      == p + w1 + Drop(rest, |stale| - |w2|)
  {
    var t := p + CommandCall(n1, w2) + rest;
    assert Take(t, |p|) == p;
    assert t == (p + CommandCall(n1, w2)) + rest;
  }

  /** As written, the outer command's span is measured with the argument read
      before the inner command was rewritten: the inner command comes back
      unconverted, and as many characters after the call as the inner rewrite
      saved are lost. */
  lemma NestedAsWritten(p: string, n1: string, n2: string, x: string, rest: string)
    requires Balanced(x) && '{' !in n2 && '}' !in n2
    requires Rewrite(n1, CommandCall(n2, x)).Some? && Rewrite(n2, x).Some?
    ensures |Rewrite(n2, x).value| <= |CommandCall(n2, x)|
    ensures CommandsApplied(p + CommandCall(n1, CommandCall(n2, x)) + rest, NestedMatches(p, n1, n2))
      == p + Rewrite(n1, CommandCall(n2, x)).value + Drop(rest, |CommandCall(n2, x)| - |Rewrite(n2, x).value|)
  {
    var inner := CommandCall(n2, x);
    var s := p + CommandCall(n1, inner) + rest;
    var w1 := Rewrite(n1, inner).value;
    var w2 := Rewrite(n2, x).value;
    var e1 := Edit(|p|, 3 + |n1| + |inner|, w1);
    var e2 := Edit(|p| + |n1| + 2, 3 + |n2| + |x|, w2);
    var es := CommandEdits(s, NestedMatches(p, n1, n2));
    NestedEdits(p, n1, n2, x, rest);
    assert es[0] == e1 && es[1] == e2;
    ApplyReverseTwo(s, es);
    var mid := Apply(s, e2);
    SpliceInner(p, n1, n2, x, rest, w2);
    assert mid == p + CommandCall(n1, w2) + rest;
    SpliceOuterStale(p, n1, inner, w2, rest, w1);
    assert CommandsApplied(s, NestedMatches(p, n1, n2)) == Apply(mid, e1);
  }

  /** The splices the pass computes for `p + \n1{\n2{x}} + rest`: both
      measured with the arguments of the unchanged text. */
  lemma NestedEdits(p: string, n1: string, n2: string, x: string, rest: string)
    requires Balanced(x) && '{' !in n2 && '}' !in n2
    requires Rewrite(n1, CommandCall(n2, x)).Some? && Rewrite(n2, x).Some?
    ensures CommandEdits(p + CommandCall(n1, CommandCall(n2, x)) + rest, NestedMatches(p, n1, n2))
      == [Edit(|p|, 3 + |n1| + |CommandCall(n2, x)|, Rewrite(n1, CommandCall(n2, x)).value),
          Edit(|p| + |n1| + 2, 3 + |n2| + |x|, Rewrite(n2, x).value)]
  {
    var s := p + CommandCall(n1, CommandCall(n2, x)) + rest;
    var ms := NestedMatches(p, n1, n2);
    NestedArguments(p, n1, n2, x, rest);
    CommandEditsStep(s, ms, 0);
    CommandEditsStep(s, ms, 1);
    assert ms[2..] == [];
  }

  /** The input `\emph{\textbf{x}} yz` comes out as `*\textbf{x}*`. */
  lemma NestedExample()
    ensures CommandsApplied(CommandCall("emph", CommandCall("textbf", "x")) + " yz", NestedMatches("", "emph", "textbf"))
      == "*" + CommandCall("textbf", "x") + "*"
  {
    var inner := CommandCall("textbf", "x");
    BraceFreeBalanced("x");
    assert |inner| == 10;
    assert Rewrite("textbf", "x").value == "**" + "x" + "**";
    assert Drop(" yz", 10 - 5) == "";
    NestedAsWritten("", "emph", "textbf", "x", " yz");
    var w := "*" + inner + "*";
    assert "" + CommandCall("emph", inner) == CommandCall("emph", inner);
    assert "" + w + "" == w;
  }

  /** The pass with each argument read again from the text at the moment of
      its splice, so that a rewritten inner command is measured as it now is. */
  function IntendedOne(r: string, c: Command): string {
    var arg := BraceGroup(r, c.ArgStart());
    match Rewrite(c.name, arg)
    case None => r
    case Some(t) => Apply(r, Edit(c.start, 3 + |c.name| + |arg|, t))
  }

  function IntendedCommandsApplied(s: string, cs: seq<Command>): string
    decreases |cs|
  {
    if cs == [] then s
    else IntendedCommandsApplied(IntendedOne(s, cs[|cs| - 1]), cs[..|cs| - 1])
  }

  /** The corrected pass agrees with the source on a single command. */
  lemma IntendedAgreesOnOne(s: string, c: Command)
    ensures IntendedCommandsApplied(s, [c]) == CommandsApplied(s, [c])
  {
    assert [c][..0] == [] && [c][1..] == [];
    assert IntendedCommandsApplied(s, [c]) == IntendedOne(s, c);
    assert CommandEdits(s, [c]) == CommandEdit(s, c) + [];
    var arg := BraceGroup(s, c.ArgStart());
    match Rewrite(c.name, arg)
    case None =>
      assert CommandEdit(s, c) + [] == [];
    case Some(t) =>
      var e := Edit(c.start, 3 + |c.name| + |arg|, t);
      assert CommandEdit(s, c) + [] == [e];
      ApplyReverseSingle(s, e);
  }

  /** One corrected step: the argument is read from the text as it is now. */
  lemma IntendedOneAt(r: string, c: Command, arg: string, t: string)
    requires BraceGroup(r, c.ArgStart()) == arg && Rewrite(c.name, arg) == Some(t)
    ensures IntendedOne(r, c) == Apply(r, Edit(c.start, 3 + |c.name| + |arg|, t))
  {
  }

  /** The corrected pass rewrites the inner command first... */
  lemma IntendedInner(p: string, n1: string, n2: string, x: string, rest: string)
    requires Balanced(x) && '{' !in n2 && '}' !in n2 && Known(n2)
    ensures IntendedOne(p + CommandCall(n1, CommandCall(n2, x)) + rest, NestedMatches(p, n1, n2)[1])
      == p + CommandCall(n1, Rewrite(n2, x).value) + rest
  {
    var s := p + CommandCall(n1, CommandCall(n2, x)) + rest;
    var c := Command(|p| + |n1| + 2, n2);
    var w2 := Rewrite(n2, x).value;
    assert NestedMatches(p, n1, n2)[1] == c;
    assert c.ArgStart() == |p| + |n1| + |n2| + 4;
    NestedArguments(p, n1, n2, x, rest);
    IntendedOneAt(s, c, x, w2);
    SpliceInner(p, n1, n2, x, rest, w2);
  }

  /** ...and then reads the outer argument as the inner rewrite left it. */
  lemma IntendedOuter(p: string, n1: string, w: string, rest: string)
    requires Balanced(w) && Known(n1)
    ensures IntendedOne(p + CommandCall(n1, w) + rest, Command(|p|, n1)) == p + Rewrite(n1, w).value + rest
  {
    var t := p + CommandCall(n1, w) + rest;
    assert t == (p + "\\" + n1) + (Braced(w) + rest);
    BracedAt(t, |p| + 1 + |n1|, w, rest);
    IntendedOneAt(t, Command(|p|, n1), w, Rewrite(n1, w).value);
    ApplyInside(p, CommandCall(n1, w), rest, 3 + |n1| + |w|, Rewrite(n1, w).value);
  }

  lemma IntendedTwo(s: string, c0: Command, c1: Command)
    ensures IntendedCommandsApplied(s, [c0, c1]) == IntendedOne(IntendedOne(s, c1), c0)
  {
    assert [c0, c1][..1] == [c0] && [c0][..0] == [];
    var t := IntendedOne(s, c1);
    assert IntendedCommandsApplied(s, [c0, c1]) == IntendedCommandsApplied(t, [c0]);
    assert IntendedCommandsApplied(t, [c0]) == IntendedCommandsApplied(IntendedOne(t, c0), []);
  }

  /** With the corrected pass both commands of `\n1{\n2{x}}` are rewritten,
      the inner one inside the outer one, and the text after them is kept. */
  lemma IntendedNested(p: string, n1: string, n2: string, x: string, rest: string)
    requires Balanced(x) && '{' !in n2 && '}' !in n2
    requires Known(n2) && Known(n1)
    ensures IntendedCommandsApplied(p + CommandCall(n1, CommandCall(n2, x)) + rest, NestedMatches(p, n1, n2))
      == p + Rewrite(n1, Rewrite(n2, x).value).value + rest
  {
    var w2 := Rewrite(n2, x).value;
    assert NestedMatches(p, n1, n2) == [Command(|p|, n1), Command(|p| + |n1| + 2, n2)];
    IntendedTwo(p + CommandCall(n1, CommandCall(n2, x)) + rest, Command(|p|, n1), Command(|p| + |n1| + 2, n2));
    IntendedInner(p, n1, n2, x, rest);
    RewriteBalanced(n2, x);
    IntendedOuter(p, n1, w2, rest);
  }

  /** Corrected, `\emph{\textbf{x}} yz` comes out as `***x*** yz`. */
  lemma IntendedExample()
    ensures IntendedCommandsApplied(CommandCall("emph", CommandCall("textbf", "x")) + " yz", NestedMatches("", "emph", "textbf"))
      == "*" + ("**" + "x" + "**") + "*" + " yz"
  {
    BraceFreeBalanced("x");
    assert Rewrite("textbf", "x") == Some("**" + "x" + "**");
    assert Rewrite("emph", "**" + "x" + "**") == Some("*" + ("**" + "x" + "**") + "*");
    IntendedNested("", "emph", "textbf", "x", " yz");
    var w := "*" + ("**" + "x" + "**") + "*";
    assert "" + w + " yz" == w + " yz";
    assert "" + CommandCall("emph", CommandCall("textbf", "x")) == CommandCall("emph", CommandCall("textbf", "x"));
  }
}

/** The two hand-written scanners of the converter: one reads the argument of
    a LaTeX command up to its matching closing brace, the other reads the two
    branches of a TeX conditional up to its matching `\fi`. */
module Scanners {
  import opened Strings

  // ---------------------------------------------------------------------------
  // Brace groups

  /** How one character changes the nesting depth. */
  function Delta(c: char): int
  {
    if c == '{' then 1 else if c == '}' then -1 else 0
  }

  /** Opening minus closing braces in `w`. */
  function Depth(w: string): int
  {
    if w == [] then 0 else Delta(w[0]) + Depth(w[1..])
  }

  lemma DepthCons(c: char, w: string)
    ensures Depth([c] + w) == Delta(c) + Depth(w)
  {
    assert ([c] + w)[1..] == w;
  }

  /** The scanning loop, from index `pos` at nesting depth `depth`: characters
      are taken until the text ends or a `}` is met at depth zero. */
  function ScanFrom(s: string, pos: nat, depth: nat): string
    decreases |s| - pos
  {
    if pos >= |s| || (s[pos] == '}' && depth == 0) then []
    else [s[pos]] + ScanFrom(s, pos + 1, depth + Delta(s[pos]))
  }

  /** The argument read by the source's brace scanner started at `start`, the
      index just after an opening brace. */
  function BraceGroup(s: string, start: nat): string
  {
    ScanFrom(s, start, 0)
  }

  /** No `}` of `w`, read from depth `d`, closes the group. */
  predicate Transparent(w: string, d: nat)
  {
    forall k :: 0 <= k < |w| ==> !(w[k] == '}' && d + Depth(w[..k]) <= 0)
  }

  /** The scan returns the shortest stretch of `s` from `pos` that either
      runs to the end or is followed by a `}` that brings the depth back to
      zero; no `}` inside it closes the group. */
  lemma {:induction false} ScanFromStops(s: string, pos: nat, depth: nat)
    requires pos <= |s|
    ensures var r := ScanFrom(s, pos, depth);
      && pos + |r| <= |s| && r == s[pos..pos + |r|]
      && (pos + |r| == |s| || (s[pos + |r|] == '}' && depth + Depth(r) == 0))
      && Transparent(r, depth)
    decreases |s| - pos
  {
    if pos == |s| || (s[pos] == '}' && depth == 0) {
    } else {
      var c := s[pos];
      var d := depth + Delta(c);
      ScanFromStops(s, pos + 1, d);
      var rest := ScanFrom(s, pos + 1, d);
      var r := [c] + rest;
      DepthCons(c, rest);
      assert r == s[pos..pos + |r|];
      assert Transparent(r, depth) by {
        forall k | 0 <= k < |r| ensures !(r[k] == '}' && depth + Depth(r[..k]) <= 0) {
          if k > 0 {
            assert r[..k] == [c] + rest[..k - 1];
            DepthCons(c, rest[..k - 1]);
            assert r[k] == rest[k - 1];
          }
        }
      }
    }
  }

  lemma {:induction false} DepthAppend(a: string, b: string)
    ensures Depth(a + b) == Depth(a) + Depth(b)
    decreases |a|
  {
    if a != [] {
      assert (a + b)[1..] == a[1..] + b;
      DepthAppend(a[1..], b);
    } else {
      assert a + b == b;
    }
  }

  /** Read from depth `d`, text that never closes the group never takes the
      depth below zero. */
  lemma {:induction false} TransparentNonNegative(w: string, d: nat, k: nat)
    requires Transparent(w, d) && k <= |w|
    ensures d + Depth(w[..k]) >= 0
    decreases k
  {
    if k > 0 {
      TransparentNonNegative(w, d, k - 1);
      assert w[..k] == w[..k - 1] + [w[k - 1]];
      DepthAppend(w[..k - 1], [w[k - 1]]);
      assert Depth([w[k - 1]]) == Delta(w[k - 1]) by {
        assert [w[k - 1]][1..] == [];
      }
    }
  }

  /** What `FindSubstringInBraces` returns: "" when `start` is at or past the
      end; otherwise a prefix of `s[start:]` in which every prefix has at least
      as many `{` as `}`, ending either at the end of `s` or just before the
      `}` that closes the group. */
  lemma BraceGroupShape(s: string, start: nat)
    ensures start >= |s| ==> BraceGroup(s, start) == []
    ensures var r := BraceGroup(s, start);
      start <= |s| ==>
        && start + |r| <= |s| && r == s[start..start + |r|]
        && (forall k :: 0 <= k <= |r| ==> Depth(r[..k]) >= 0)
        && (start + |r| == |s| || (s[start + |r|] == '}' && Depth(r) == 0))
  {
    if start <= |s| {
      ScanFromStops(s, start, 0);
      var r := BraceGroup(s, start);
      forall k | 0 <= k <= |r| ensures Depth(r[..k]) >= 0 {
        TransparentNonNegative(r, 0, k);
      }
    }
  }

  /** `FindSubstringInBraces`: walks forward from `start`, counting nested
      braces, and returns the text before the matching `}`. */
  method FindSubstringInBraces(s: string, start: nat) returns (r: string)
    ensures r == BraceGroup(s, start)
  {
    r := "";
    var pos := start;
    var depth := 0;
    while pos < |s| && (s[pos] != '}' || depth > 0)
      invariant depth >= 0
      invariant BraceGroup(s, start) == r + ScanFrom(s, pos, depth)
      decreases |s| - pos
    {
      var c := s[pos];
      ghost var rest := ScanFrom(s, pos + 1, depth + Delta(c));
      Associate(r, [c], rest);
      r := r + [c];
      if c == '{' {
        depth := depth + 1;
      } else if c == '}' {
        depth := depth - 1;
      }
      pos := pos + 1;
    }
  }

  /** Text that never closes the group is taken over whole, and the scan goes
      on after it at the depth it leaves behind. */
  lemma {:induction false} ScanOver(s: string, pos: nat, w: string, d: nat)
    requires pos + |w| <= |s| && s[pos..pos + |w|] == w
    requires Transparent(w, d)
    ensures d + Depth(w) >= 0
    ensures ScanFrom(s, pos, d) == w + ScanFrom(s, pos + |w|, d + Depth(w))
    decreases |w|
  {
    if w != [] {
      var c := w[0];
      assert w[..0] == [];
      var d' := d + Delta(c);
      var w' := w[1..];
      assert s[pos] == c;
      assert s[pos + 1..pos + 1 + |w'|] == w';
      forall k | 0 <= k < |w'| ensures !(w'[k] == '}' && d' + Depth(w'[..k]) <= 0) {
        assert w[..k + 1] == [c] + w'[..k];
        DepthCons(c, w'[..k]);
        assert w[k + 1] == w'[k];
      }
      ScanOver(s, pos + 1, w', d');
      DepthCons(c, w');
      assert w == [c] + w';
      Associate([c], w', ScanFrom(s, pos + |w|, d + Depth(w)));
    }
  }

  /** A balanced argument is read back exactly: for `\cmd{w}...` the scanner
      started after the `{` returns `w`. */
  lemma BalancedArgument(p: string, w: string, rest: string)
    requires Transparent(w, 0) && Depth(w) == 0
    ensures BraceGroup(p + w + "}" + rest, |p|) == w
  {
    var s := p + w + "}" + rest;
    assert s[|p|..|p| + |w|] == w;
    assert s[|p| + |w|] == '}';
    ScanOver(s, |p|, w, 0);
    assert w + [] == w;
  }

  /** An argument the brace scanner reads back exactly: its braces balance
      and never close below the starting depth. */
  predicate Balanced(w: string) {
    Transparent(w, 0) && Depth(w) == 0
  }

  /** A group in braces. */
  function Braced(a: string): string {
    "{" + a + "}"
  }

  /** A balanced argument in braces is read back exactly. */
  lemma BracedAt(s: string, j: nat, a: string, tail: string)
    requires Balanced(a)
    requires j <= |s| && s[j..] == Braced(a) + tail
    ensures BraceGroup(s, j + 1) == a
  {
    assert s == s[..j] + "{" + a + "}" + tail;
    BalancedArgument(s[..j] + "{", a, tail);
  }

  /** Without its closing brace the argument runs to the end of the string. */
  lemma UnclosedArgument(p: string, w: string)
    requires Transparent(w, 0)
    ensures BraceGroup(p + w, |p|) == w
  {
    var s := p + w;
    assert s[|p|..|p| + |w|] == w;
    ScanOver(s, |p|, w, 0);
    assert w + [] == w;
  }

  // ---------------------------------------------------------------------------
  // Conditional branches

  /** The scanning loop of `FindMatchingEndif`: `first` is the text before a
      top-level `\else` (`None` while none has been met), `cur` the text read
      since. The scan stops at a `\fi` at depth zero or when fewer than three
      characters are left. */
  function EndifScan(t: string, depth: nat, first: Option<string>, cur: string): (Option<string>, string)
    decreases |t|
  {
    if |t| < 3 || (t[..3] == "\\fi" && depth == 0) then (first, cur)
    else if depth == 0 && |t| > 5 && t[..5] == "\\else" then EndifScan(t[5..], 0, Some(cur), "")
    else
      var d := if t[..3] == "\\if" then depth + 1 else if t[..3] == "\\fi" then depth - 1 else depth;
      EndifScan(t[1..], d, first, cur + [t[0]])
  }

  /** The pair returned for a conditional whose body starts at `start`: the
      `\if` branch and the `\else` branch, the second empty when there is no
      `\else`, and the text after `\else` moved first when the text before it
      is empty. */
  function ConditionalBranches(s: string, start: nat): (string, string)
  {
    var (first, cur) := EndifScan(Drop(s, start), 0, None, "");
    if first.Some? && first.value != "" then (first.value, cur) else (cur, "")
  }

  /** `FindMatchingEndif`. */
  method FindMatchingEndif(s: string, start: nat) returns (a: string, b: string)
    ensures (a, b) == ConditionalBranches(s, start)
  {
    var cur := "";
    var first := "";
    var pos := start;
    var depth := 0;
    ghost var seen: Option<string> := None;
    ghost var total := EndifScan(Drop(s, start), 0, None, "");
    while pos < |s| - 2 && (s[pos..pos + 3] != "\\fi" || depth > 0)
      invariant depth >= 0
      invariant pos <= |s| || pos == start
      invariant seen.None? ==> first == ""
      invariant seen.Some? ==> first == seen.value
      invariant total == EndifScan(Drop(s, pos), depth, seen, cur)
      decreases |s| - pos
    {
      if depth == 0 && pos < |s| - 5 && s[pos..pos + 5] == "\\else" {
        EndifScanElseStep(total, s, pos, seen, cur);
        first := cur;
        seen := Some(cur);
        cur := "";
        pos := pos + 5;
      } else {
        ghost var pos0, depth0, cur0 := pos, depth, cur;
        var w := s[pos..pos + 3];
        cur := cur + [s[pos]];
        if w == "\\if" {
          depth := depth + 1;
        } else if w == "\\fi" {
          depth := depth - 1;
        }
        pos := pos + 1;
        EndifScanCharStep(total, s, pos0, depth0, seen, cur0, pos, depth, cur);
      }
    }
    EndifScanStop(s, pos, depth, seen, cur);
    if first != "" {
      a, b := first, cur;
    } else {
      a, b := cur, "";
    }
  }

  lemma EndifScanElseStep(total: (Option<string>, string), s: string, pos: nat, first: Option<string>, cur: string)
    requires pos < |s| - 5 && s[pos..pos + 5] == "\\else"
    requires total == EndifScan(Drop(s, pos), 0, first, cur)
    ensures total == EndifScan(Drop(s, pos + 5), 0, Some(cur), "")
  {
    var t := Drop(s, pos);
    assert t[..5] == s[pos..pos + 5] == "\\else";
    assert t[..3] == t[..5][..3] == "\\el";
    assert t[5..] == Drop(s, pos + 5);
  }

  lemma EndifScanCharStep(total: (Option<string>, string), s: string, pos: nat, depth: nat,
                          first: Option<string>, cur: string, pos': nat, d: int, cur': string)
    requires pos < |s| - 2 && (s[pos..pos + 3] != "\\fi" || depth > 0)
    requires !(depth == 0 && pos < |s| - 5 && s[pos..pos + 5] == "\\else")
    requires d == if s[pos..pos + 3] == "\\if" then depth + 1
                 else if s[pos..pos + 3] == "\\fi" then depth - 1 else depth
    requires pos' == pos + 1 && cur' == cur + [s[pos]]
    requires total == EndifScan(Drop(s, pos), depth, first, cur)
    ensures d >= 0 && total == EndifScan(Drop(s, pos'), d, first, cur')
  {
    var t := Drop(s, pos);
    assert t[..3] == s[pos..pos + 3];
    assert |t| > 5 ==> t[..5] == s[pos..pos + 5];
    assert t[1..] == Drop(s, pos + 1);
  }

  lemma EndifScanStop(s: string, pos: nat, depth: nat, first: Option<string>, cur: string)
    requires !(pos < |s| - 2 && (s[pos..pos + 3] != "\\fi" || depth > 0))
    ensures EndifScan(Drop(s, pos), depth, first, cur) == (first, cur)
  {
    if pos < |s| - 2 {
      assert Drop(s, pos)[..3] == s[pos..pos + 3];
    }
  }

  // ---------------------------------------------------------------------------
  // What the conditional scanner does to marker-balanced text

  /** A marker the scanner reacts to (`\if`, `\fi` or `\else`) starts at `i`. */
  predicate MarkerAt(s: string, i: nat) {
    (i + 3 <= |s| && (s[i..i + 3] == "\\if" || s[i..i + 3] == "\\fi"))
    || (i + 5 <= |s| && s[i..i + 5] == "\\else")
  }

  /** No marker starts in the first `n` characters of `s`. */
  predicate Unmarked(s: string, n: nat) {
    forall i :: 0 <= i < n ==> !MarkerAt(s, i)
  }

  /** Text holding no `\if`, `\fi` or `\else`; other commands may appear. */
  predicate NoMarker(x: string) { Unmarked(x, |x|) }

  /** Every marker starts with a backslash, so text without one has none. */
  lemma PlainUnmarked(s: string, n: nat)
    requires n <= |s| && forall i :: 0 <= i < n ==> s[i] != '\\'
    ensures Unmarked(s, n)
  {
    forall i | 0 <= i < n ensures !MarkerAt(s, i) {
      if i + 3 <= |s| { assert s[i..i + 3][0] == s[i]; }
      if i + 5 <= |s| { assert s[i..i + 5][0] == s[i]; }
    }
  }

  /** A marker holds no backslash after its first character, so none can
      straddle the end of marker-free text followed by a backslash. */
  lemma NoMarkerBeforeBackslash(w: string, t: string)
    requires NoMarker(w) && |t| > 0 && t[0] == '\\'
    ensures Unmarked(w + t, |w|)
  {
    var s := w + t;
    forall i | 0 <= i < |w| ensures !MarkerAt(s, i) {
      assert !MarkerAt(w, i);
      if i + 3 <= |w| {
        assert s[i..i + 3] == w[i..i + 3];
      } else if i + 3 <= |s| {
        assert s[i..i + 3][|w| - i] == '\\';
      }
      if i + 5 <= |w| {
        assert s[i..i + 5] == w[i..i + 5];
      } else if i + 5 <= |s| {
        assert s[i..i + 5][|w| - i] == '\\';
      }
    }
  }

  /** The scanner copies an unmarked prefix into the current branch, one
      character at a time, without changing the depth. */
  lemma {:induction false} EndifScanOver(u: string, n: nat, d: nat, f: Option<string>, c: string)
    requires n + 2 <= |u| && Unmarked(u, n)
    ensures EndifScan(u, d, f, c) == EndifScan(u[n..], d, f, c + u[..n])
    decreases n
  {
    if n == 0 {
      assert u[0..] == u && c + u[..0] == c;
    } else {
      assert !MarkerAt(u, 0);
      assert u[..3] == u[0..3];
      assert |u| > 5 ==> u[..5] == u[0..5];
      var v := u[1..];
      forall i | 0 <= i < n - 1 ensures !MarkerAt(v, i) {
        assert !MarkerAt(u, i + 1);
        assert i + 3 <= |v| ==> v[i..i + 3] == u[i + 1..i + 4];
        assert i + 5 <= |v| ==> v[i..i + 5] == u[i + 1..i + 6];
      }
      EndifScanOver(v, n - 1, d, f, c + [u[0]]);
      assert v[n - 1..] == u[n..];
      assert (c + [u[0]]) + v[..n - 1] == c + u[..n];
    }
  }

  /** Marker-free text before a backslash is copied into the current branch
      unchanged. */
  lemma EndifScanFlat(w: string, t: string, d: nat, f: Option<string>, c: string)
    requires NoMarker(w) && |t| >= 2 && t[0] == '\\'
    ensures EndifScan(w + t, d, f, c) == EndifScan(t, d, f, c + w)
  {
    NoMarkerBeforeBackslash(w, t);
    EndifScanOver(w + t, |w|, d, f, c);
    assert (w + t)[|w|..] == t && (w + t)[..|w|] == w;
  }

  /** Text without a backslash is copied whatever follows it. */
  lemma PlainCopied(w: string, t: string, d: nat, f: Option<string>, c: string)
    requires '\\' !in w && |t| >= 2
    ensures EndifScan(w + t, d, f, c) == EndifScan(t, d, f, c + w)
  {
    assert forall i :: 0 <= i < |w| ==> (w + t)[i] == w[i];
    PlainUnmarked(w + t, |w|);
    EndifScanOver(w + t, |w|, d, f, c);
    assert (w + t)[|w|..] == t && (w + t)[..|w|] == w;
  }

  /** Marker-free text and then `\if`: the text is copied and the depth
      raised by one. */
  lemma OpenStep(a: string, t: string, d: nat, f: Option<string>, c: string)
    requires NoMarker(a) && |t| >= 2
    ensures EndifScan(a + ("\\if" + t), d, f, c) == EndifScan(t, d + 1, f, c + a + "\\if")
  {
    EndifScanFlat(a, "\\if" + t, d, f, c);
    var u := "\\if" + t;
    assert u[..3] == "\\if" && u[1..] == "if" + t;
    assert |u| > 5 ==> u[..5][..3] == "\\if";
    PlainCopied("if", t, d + 1, f, c + a + "\\");
    assert c + a + "\\" + "if" == c + a + "\\if";
  }

  /** A `\fi` below the top level is copied and lowers the depth by one. */
  lemma CloseStep(t: string, d: nat, f: Option<string>, c: string)
    requires |t| >= 2
    ensures EndifScan("\\fi" + t, d + 1, f, c) == EndifScan(t, d, f, c + "\\fi")
  {
    var u := "\\fi" + t;
    assert u[..3] == "\\fi" && u[1..] == "fi" + t;
    PlainCopied("fi", t, d, f, c + "\\");
    assert c + "\\" + "fi" == c + "\\fi";
  }

  /** An `\else` below the top level is copied like any other text. */
  lemma ElseStep(t: string, d: nat, f: Option<string>, c: string)
    requires d > 0 && |t| >= 2
    ensures EndifScan("\\else" + t, d, f, c) == EndifScan(t, d, f, c + "\\else")
  {
    var u := "\\else" + t;
    assert u[..3] == "\\el" && u[1..] == "else" + t;
    PlainCopied("else", t, d, f, c + "\\");
    assert c + "\\" + "else" == c + "\\else";
  }

  /** Marker-balanced text: marker-free text, or marker-free text followed by
      a nested conditional (with an optional `\else` part) and more balanced
      text. A conditional's qualifier is part of the text after its `\if`. */
  datatype Nesting = Flat(text: string) | Wrap(before: string, body: Nesting, alt: Option<Nesting>, after: Nesting)

  function Render(n: Nesting): string {
    match n
    case Flat(a) => a
    case Wrap(a, i, e, b) =>
      a + "\\if" + Render(i) + (if e.Some? then "\\else" + Render(e.value) else "") + "\\fi" + Render(b)
  }

  predicate WellFormed(n: Nesting) {
    match n
    case Flat(a) => NoMarker(a)
    case Wrap(a, i, e, b) => NoMarker(a) && WellFormed(i) && (e.Some? ==> WellFormed(e.value)) && WellFormed(b)
  }

  /** Text the scanner reads as balanced, with no `\else` of its own level. */
  ghost predicate IfBalanced(x: string) { exists n :: WellFormed(n) && Render(n) == x }

  /** Marker-balanced text before a backslash is copied whole and leaves the
      depth as it was: every nested `\if` is closed by its own `\fi`, and a
      nested `\else` is not taken for the outer one. */
  lemma {:induction false} NestedBlock(n: Nesting, t: string, d: nat, f: Option<string>, c: string)
    requires WellFormed(n) && |t| >= 2 && t[0] == '\\'
    ensures EndifScan(Render(n) + t, d, f, c) == EndifScan(t, d, f, c + Render(n))
    decreases n
  {
    match n
    case Flat(a) =>
      EndifScanFlat(a, t, d, f, c);
    case Wrap(a, i, e, b) =>
      NestedBlock(i, AfterBody(e, Render(b) + t), d + 1, f, c + a + "\\if");
      if e.Some? {
        NestedBlock(e.value, "\\fi" + (Render(b) + t), d + 1, f, c + a + "\\if" + Render(i) + "\\else");
      }
      NestedBlock(b, t, d, f, c + a + "\\if" + Render(i) + AltText(e) + "\\fi");
      WrapCopied(a, i, e, b, t, d, f, c);
  }

  /** What follows a nested conditional's first branch. */
  function AltText(e: Option<Nesting>): string {
    if e.Some? then "\\else" + Render(e.value) else ""
  }

  function AfterBody(e: Option<Nesting>, u: string): string {
    AltText(e) + ("\\fi" + u)
  }

  /** One nested conditional, given that each of its parts is copied. */
  lemma WrapCopied(a: string, i: Nesting, e: Option<Nesting>, b: Nesting, t: string, d: nat, f: Option<string>, c: string)
    requires NoMarker(a) && |t| >= 2
    requires var c1 := c + a + "\\if";
      EndifScan(Render(i) + AfterBody(e, Render(b) + t), d + 1, f, c1)
      == EndifScan(AfterBody(e, Render(b) + t), d + 1, f, c1 + Render(i))
    requires e.Some? ==> var c1 := c + a + "\\if" + Render(i) + "\\else";
      EndifScan(Render(e.value) + ("\\fi" + (Render(b) + t)), d + 1, f, c1)
      == EndifScan("\\fi" + (Render(b) + t), d + 1, f, c1 + Render(e.value))
    requires var c3 := c + a + "\\if" + Render(i) + AltText(e) + "\\fi";
      EndifScan(Render(b) + t, d, f, c3) == EndifScan(t, d, f, c3 + Render(b))
    ensures EndifScan(Render(Wrap(a, i, e, b)) + t, d, f, c)
      == EndifScan(t, d, f, c + Render(Wrap(a, i, e, b)))
  {
    WrapFront(a, i, e, b, t, d, f, c);
    WrapBack(a, i, e, b, t, d, f, c);
  }

  /** Up to the end of the nested conditional's first branch. */
  lemma WrapFront(a: string, i: Nesting, e: Option<Nesting>, b: Nesting, t: string, d: nat, f: Option<string>, c: string)
    requires NoMarker(a) && |t| >= 2
    requires var c1 := c + a + "\\if";
      EndifScan(Render(i) + AfterBody(e, Render(b) + t), d + 1, f, c1)
      == EndifScan(AfterBody(e, Render(b) + t), d + 1, f, c1 + Render(i))
    ensures EndifScan(Render(Wrap(a, i, e, b)) + t, d, f, c)
      == EndifScan(AfterBody(e, Render(b) + t), d + 1, f, c + a + "\\if" + Render(i))
  {
    var t2 := AfterBody(e, Render(b) + t);
    WrapText(a, i, e, b, t);
    OpenStep(a, Render(i) + t2, d, f, c);
  }

  /** From the end of the nested conditional's first branch on. */
  lemma WrapBack(a: string, i: Nesting, e: Option<Nesting>, b: Nesting, t: string, d: nat, f: Option<string>, c: string)
    requires |t| >= 2
    requires e.Some? ==> var c1 := c + a + "\\if" + Render(i) + "\\else";
      EndifScan(Render(e.value) + ("\\fi" + (Render(b) + t)), d + 1, f, c1)
      == EndifScan("\\fi" + (Render(b) + t), d + 1, f, c1 + Render(e.value))
    requires var c3 := c + a + "\\if" + Render(i) + AltText(e) + "\\fi";
      EndifScan(Render(b) + t, d, f, c3) == EndifScan(t, d, f, c3 + Render(b))
    ensures EndifScan(AfterBody(e, Render(b) + t), d + 1, f, c + a + "\\if" + Render(i))
      == EndifScan(t, d, f, c + Render(Wrap(a, i, e, b)))
  {
    var rb := Render(b);
    var c2 := c + a + "\\if" + Render(i) + AltText(e);
    assert EndifScan(AfterBody(e, rb + t), d + 1, f, c + a + "\\if" + Render(i))
        == EndifScan("\\fi" + (rb + t), d + 1, f, c2) by {
      AltCopied(e, rb + t, d + 1, f, c + a + "\\if" + Render(i));
    }
    assert EndifScan("\\fi" + (rb + t), d + 1, f, c2) == EndifScan(rb + t, d, f, c2 + "\\fi") by {
      CloseStep(rb + t, d, f, c2);
    }
    assert c2 + "\\fi" + rb == c + Render(Wrap(a, i, e, b)) by {
      RenderWrap(c, a, i, e, b);
    }
  }

  /** The text of a nested conditional and what follows it, regrouped the
      way the scanner reads it. */
  lemma WrapText(a: string, i: Nesting, e: Option<Nesting>, b: Nesting, t: string)
    ensures Render(Wrap(a, i, e, b)) + t == a + ("\\if" + (Render(i) + AfterBody(e, Render(b) + t)))
  {
    var ri, alt, rb := Render(i), AltText(e), Render(b);
    assert Render(Wrap(a, i, e, b)) == a + "\\if" + ri + alt + "\\fi" + rb;
    Associate(a + "\\if" + ri + alt + "\\fi", rb, t);
    Associate(a + "\\if" + ri + alt, "\\fi", rb + t);
    Associate(a + "\\if" + ri, alt, "\\fi" + (rb + t));
    Associate(a + "\\if", ri, alt + ("\\fi" + (rb + t)));
    Associate(a, "\\if", ri + (alt + ("\\fi" + (rb + t))));
  }

  lemma RenderWrap(c: string, a: string, i: Nesting, e: Option<Nesting>, b: Nesting)
    ensures c + a + "\\if" + Render(i) + AltText(e) + "\\fi" + Render(b) == c + Render(Wrap(a, i, e, b))
  {
    assert Render(Wrap(a, i, e, b)) == a + "\\if" + Render(i) + AltText(e) + "\\fi" + Render(b);
    PrependSix(c, a, "\\if", Render(i), AltText(e), "\\fi", Render(b));
  }

  /** Text put in front of six pieces joined left to right. */
  lemma PrependSix(c: string, p1: string, p2: string, p3: string, p4: string, p5: string, p6: string)
    ensures c + p1 + p2 + p3 + p4 + p5 + p6 == c + (p1 + p2 + p3 + p4 + p5 + p6)
  {
  }

  /** The `\else` part of a nested conditional, given that its text is copied. */
  lemma AltCopied(e: Option<Nesting>, u: string, d: nat, f: Option<string>, c: string)
    requires d > 0 && |u| >= 2
    requires e.Some? ==>
      EndifScan(Render(e.value) + ("\\fi" + u), d, f, c + "\\else")
      == EndifScan("\\fi" + u, d, f, c + "\\else" + Render(e.value))
    ensures EndifScan(AfterBody(e, u), d, f, c) == EndifScan("\\fi" + u, d, f, c + AltText(e))
  {
    if e.Some? {
      var r := Render(e.value);
      assert AfterBody(e, u) == "\\else" + (r + ("\\fi" + u)) by {
        assert AltText(e) == "\\else" + r;
      }
      ElseStep(r + ("\\fi" + u), d, f, c);
      assert c + "\\else" + r == c + AltText(e) by {
        assert AltText(e) == "\\else" + r;
      }
    } else {
      assert AfterBody(e, u) == "\\fi" + u && c + AltText(e) == c;
    }
  }

  /** The same over text known only to be balanced. */
  lemma BalancedCopied(x: string, t: string, d: nat, f: Option<string>, c: string)
    requires IfBalanced(x) && |t| >= 2 && t[0] == '\\'
    ensures EndifScan(x + t, d, f, c) == EndifScan(t, d, f, c + x)
  {
    var n :| WellFormed(n) && Render(n) == x;
    NestedBlock(n, t, d, f, c);
  }

  /** Marker-free text is balanced. */
  lemma FlatIfBalanced(x: string)
    requires NoMarker(x)
    ensures IfBalanced(x)
  {
    assert WellFormed(Flat(x)) && Render(Flat(x)) == x;
  }

  /** The empty text is balanced. */
  lemma EmptyBalanced()
    ensures IfBalanced("")
  {
    assert WellFormed(Flat("")) && Render(Flat("")) == "";
  }

  /** The scan over `x \fi ...` with balanced `x`: no `\else`, and `x` read. */
  lemma ScanWithoutElse(x: string, rest: string)
    requires IfBalanced(x)
    ensures EndifScan(x + "\\fi" + rest, 0, None, "") == (None, x)
  {
    ScanFlatThenFi(x, rest, None, "");
    assert "" + x == x;
  }

  /** The scan over `x \else y \fi ...` with balanced `x` and `y`, either of
      them possibly empty: `x` is recorded as the text before `\else`. */
  lemma ScanWithElse(x: string, y: string, rest: string)
    requires IfBalanced(x) && IfBalanced(y)
    ensures EndifScan(x + "\\else" + y + "\\fi" + rest, 0, None, "") == (Some(x), y)
  {
    var u := y + "\\fi" + rest;
    assert x + "\\else" + y + "\\fi" + rest == x + ("\\else" + u);
    assert EndifScan(x + ("\\else" + u), 0, None, "") == EndifScan("\\else" + u, 0, None, x) by {
      BalancedCopied(x, "\\else" + u, 0, None, "");
      assert "" + x == x;
    }
    TopElse(u, None, x);
    assert EndifScan(u, 0, Some(x), "") == (Some(x), y) by {
      ScanFlatThenFi(y, rest, Some(x), "");
      assert "" + y == y;
    }
  }

  /** At depth zero an `\else` with text after it records the text read so
      far and starts the second branch. */
  lemma TopElse(u: string, f: Option<string>, c: string)
    requires u != []
    ensures EndifScan("\\else" + u, 0, f, c) == EndifScan(u, 0, Some(c), "")
  {
    var e := "\\else" + u;
    assert e[..3] == "\\el" && e[..5] == "\\else" && e[5..] == u;
  }

  /** `\if x \fi` with balanced `x`: the branches are `x` and "". */
  lemma BranchesWithoutElse(p: string, x: string, rest: string)
    requires IfBalanced(x)
    ensures ConditionalBranches(p + x + "\\fi" + rest, |p|) == (x, "")
  {
    assert Drop(p + x + "\\fi" + rest, |p|) == x + "\\fi" + rest;
    ScanWithoutElse(x, rest);
  }

  /** `\if x \else y \fi` with balanced, non-empty `x`: the branches are `x` and `y`. */
  lemma BranchesWithElse(p: string, x: string, y: string, rest: string)
    requires IfBalanced(x) && IfBalanced(y) && x != ""
    ensures ConditionalBranches(p + x + "\\else" + y + "\\fi" + rest, |p|) == (x, y)
  {
    assert Drop(p + x + "\\else" + y + "\\fi" + rest, |p|) == x + "\\else" + y + "\\fi" + rest;
    ScanWithElse(x, y, rest);
  }

  /** `\if \else y \fi`: with nothing before the `\else`, the `\else` text is
      returned as the FIRST branch and the second is empty, exactly as for a
      conditional without `\else`. */
  lemma BranchesEmptyThen(p: string, y: string, rest: string)
    requires IfBalanced(y)
    ensures ConditionalBranches(p + "\\else" + y + "\\fi" + rest, |p|) == (y, "")
  {
    assert Drop(p + "\\else" + y + "\\fi" + rest, |p|) == "" + "\\else" + y + "\\fi" + rest;
    EmptyBalanced();
    ScanWithElse("", y, rest);
  }

  /** A nested `\if ... \else ... \fi` inside the first branch is counted and
      kept whole, its own `\else` included: the branch runs to the `\fi` that
      matches the outer `\if`. */
  lemma BranchesNested(p: string, x1: string, w: string, v: string, x2: string, rest: string)
    requires NoMarker(x1) && IfBalanced(w) && IfBalanced(v) && IfBalanced(x2)
    ensures ConditionalBranches(p + x1 + "\\if" + w + "\\else" + v + "\\fi" + x2 + "\\fi" + rest, |p|)
      == (x1 + "\\if" + w + "\\else" + v + "\\fi" + x2, "")
  {
    var nw :| WellFormed(nw) && Render(nw) == w;
    var nv :| WellFormed(nv) && Render(nv) == v;
    var n2 :| WellFormed(n2) && Render(n2) == x2;
    var n := Wrap(x1, nw, Some(nv), n2);
    assert WellFormed(n);
    var x := x1 + "\\if" + w + "\\else" + v + "\\fi" + x2;
    assert Render(n) == x;
    assert p + x1 + "\\if" + w + "\\else" + v + "\\fi" + x2 + "\\fi" + rest == p + x + "\\fi" + rest;
    BranchesWithoutElse(p, x, rest);
  }

  /** Balanced text up to `\fi` is appended to the text read so far. */
  lemma ScanFlatThenFi(x: string, rest: string, f: Option<string>, c: string)
    requires IfBalanced(x)
    ensures EndifScan(x + "\\fi" + rest, 0, f, c) == (f, c + x)
  {
    assert x + "\\fi" + rest == x + ("\\fi" + rest);
    BalancedCopied(x, "\\fi" + rest, 0, f, c);
    assert ("\\fi" + rest)[..3] == "\\fi";
  }
}

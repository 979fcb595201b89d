/** The Python string primitives the converter relies on, written out:
    slices that clamp, `str.strip`, `str.split`, `str.join`, `str.splitlines`,
    `str.find`, `str.replace`, literal `re.finditer`, and `str(n)`. */
module Strings {

  datatype Option<+T> = None | Some(value: T)

  // ---------------------------------------------------------------------------
  // Slicing

  /** `s[:n]` for a non-negative `n`: a bound past the end is clamped. */
  function Take(s: string, n: nat): string
  {
    if n <= |s| then s[..n] else s
  }

  /** `s[n:]` for a non-negative `n`. */
  function Drop(s: string, n: nat): string
  {
    if n <= |s| then s[n..] else []
  }

  /** How Python normalises one slice bound: a negative bound counts from the
      end, and the result is clamped to `0..n`. */
  function SliceBound(k: int, n: nat): (r: nat)
    ensures r <= n
    ensures 0 <= k <= n ==> r == k
    ensures k < 0 && 0 <= n + k ==> r == n + k
  {
    if k < 0 then (if n + k < 0 then 0 else n + k) else if k > n then n else k
  }

  /** `s[i:j]` with Python's treatment of negative and out-of-range bounds. */
  function Slice(s: string, i: int, j: int): (r: string)
    ensures 0 <= i <= j <= |s| ==> r == s[i..j]
    ensures |r| <= |s|
  {
    var a := SliceBound(i, |s|);
    var b := SliceBound(j, |s|);
    if a < b then s[a..b] else []
  }

  /** A slice to the end is what `Drop` leaves. */
  lemma SliceToEnd(s: string, i: nat)
    ensures Slice(s, i, |s|) == Drop(s, i)
  {
  }

  /** `s[:k] == p`, the way the source tests a fixed prefix. */
  predicate StartsWith(s: string, p: string) {
    |p| <= |s| && s[..|p|] == p
  }

  lemma Associate(a: string, b: string, c: string)
    ensures a + (b + c) == (a + b) + c
  {
  }

  lemma RegroupFour(a: string, b: string, c: string, d: string)
    ensures a + b + c + d == a + (b + c + d)
  {
  }

  lemma RegroupFive(a: string, b: string, c: string, d: string, e: string)
    ensures a + b + c + d + e == a + b + (c + (d + e))
  {
  }

  /** The string of `n` copies of `c` (Python's `c * n`). */
  function Repeat(c: char, n: nat): (r: string)
    ensures |r| == n
    ensures forall i :: 0 <= i < n ==> r[i] == c
  {
    seq(n, _ => c)
  }

  /** All strings of `ss` one after the other. */
  function Concat(ss: seq<string>): string
  {
    if ss == [] then [] else ss[0] + Concat(ss[1..])
  }

  // ---------------------------------------------------------------------------
  // Whitespace (Python's `str.isspace`)

  predicate IsSpace(c: char) {
    c == ' ' || c == '\t' || c == '\n' || c == '\r' || c == '\U{0B}' || c == '\U{0C}'
    || ('\U{1C}' <= c <= '\U{1F}') || c == '\U{85}' || c == '\U{A0}' || c == '\U{1680}'
    || ('\U{2000}' <= c <= '\U{200A}') || c == '\U{2028}' || c == '\U{2029}'
    || c == '\U{202F}' || c == '\U{205F}' || c == '\U{3000}'
  }

  /** `s.lstrip()`. */
  function LStrip(s: string): (r: string)
    ensures |r| <= |s| && r == s[|s| - |r|..]
    ensures forall i :: 0 <= i < |s| - |r| ==> IsSpace(s[i])
    ensures r == [] || !IsSpace(r[0])
  {
    if s != [] && IsSpace(s[0]) then
      var t := LStrip(s[1..]);
      assert s[1..][|s| - 1 - |t|..] == s[|s| - |t|..];
      t
    else s
  }

  /** `s.rstrip()`. */
  function RStrip(s: string): (r: string)
    ensures |r| <= |s| && r == s[..|r|]
    ensures forall i :: |r| <= i < |s| ==> IsSpace(s[i])
    ensures r == [] || !IsSpace(r[|r| - 1])
  {
    if s != [] && IsSpace(s[|s| - 1]) then RStrip(s[..|s| - 1]) else s
  }

  /** `s.strip()`: no white space is left at either end, and a string with no
      white space at its ends is returned as it is. */
  function Strip(s: string): (r: string)
    ensures r == [] || (!IsSpace(r[0]) && !IsSpace(r[|r| - 1]))
    ensures (s == [] || (!IsSpace(s[0]) && !IsSpace(s[|s| - 1]))) ==> r == s
  {
    var l := LStrip(s);
    assert l != [] ==> !IsSpace(l[0]);
    RStrip(l)
  }

  /** Stripping only removes characters. */
  lemma StripKeepsOut(s: string, c: char)
    requires c !in s
    ensures c !in Strip(s)
  {
    var l := LStrip(s);
    var r := Strip(s);
    assert r == RStrip(l);
    forall i | 0 <= i < |r| ensures r[i] != c {
      assert r[i] == l[i] == s[|s| - |l| + i];
    }
  }

  /** `s.rstrip(c)` for a single character `c`. */
  function RStripChar(s: string, c: char): (r: string)
    ensures |r| <= |s| && r == s[..|r|]
    ensures forall i :: |r| <= i < |s| ==> s[i] == c
    ensures r == [] || r[|r| - 1] != c
  {
    if s != [] && s[|s| - 1] == c then RStripChar(s[..|s| - 1], c) else s
  }

  // ---------------------------------------------------------------------------
  // Searching for a literal

  /** `pat` occurs in `s` starting at index `k`. */
  predicate OccursAt(s: string, pat: string, k: nat) {
    k + |pat| <= |s| && s[k..k + |pat|] == pat
  }

  /** The leftmost occurrence of `pat` at or after `from` (`s.find(pat, from)`). */
  function IndexOf(s: string, pat: string, from: nat): (r: Option<nat>)
    requires |pat| > 0
    ensures r.Some? ==> from <= r.value && OccursAt(s, pat, r.value)
    ensures forall k :: from <= k && (r.None? || k < r.value) ==> !OccursAt(s, pat, k)
    decreases |s| - from
  {
    if from + |pat| > |s| then None
    else if s[from..from + |pat|] == pat then Some(from)
    else IndexOf(s, pat, from + 1)
  }

  /** `pat in s`. */
  predicate Contains(s: string, pat: string)
    requires |pat| > 0
  {
    IndexOf(s, pat, 0).Some?
  }

  /** The start indices that `re.finditer` reports for a literal pattern: the
      leftmost occurrence, then the next one after its end, and so on. */
  function Occurrences(s: string, pat: string, from: nat): (r: seq<nat>)
    requires |pat| > 0
    ensures forall i :: 0 <= i < |r| ==> from <= r[i] && OccursAt(s, pat, r[i])
    ensures forall i, j :: 0 <= i < j < |r| ==> r[i] + |pat| <= r[j]
    ensures r == [] <==> forall k :: from <= k ==> !OccursAt(s, pat, k)
    decreases |s| - from
  {
    match IndexOf(s, pat, from)
    case None => []
    case Some(k) => [k] + Occurrences(s, pat, k + |pat|)
  }

  /** The first reported index is the leftmost occurrence. */
  lemma OccurrencesFirst(s: string, pat: string, from: nat, k: nat)
    requires |pat| > 0 && Occurrences(s, pat, from) != [] && from <= k < Occurrences(s, pat, from)[0]
    ensures !OccursAt(s, pat, k)
  {
  }

  /** Each later index is the leftmost occurrence past the end of the match
      before it. */
  lemma OccurrencesGaps(s: string, pat: string, from: nat, i: nat, k: nat)
    requires |pat| > 0
    requires 0 < i < |Occurrences(s, pat, from)|
    requires Occurrences(s, pat, from)[i - 1] + |pat| <= k < Occurrences(s, pat, from)[i]
    ensures !OccursAt(s, pat, k)
  {
    if OccursAt(s, pat, k) {
      var h := OccurrencesComplete(s, pat, from, k);
      assert false;
    }
  }

  lemma OccurrencesCons(s: string, pat: string, from: nat)
    requires |pat| > 0 && IndexOf(s, pat, from).Some?
    ensures Occurrences(s, pat, from)
      == [IndexOf(s, pat, from).value] + Occurrences(s, pat, IndexOf(s, pat, from).value + |pat|)
  {
  }

  /** Every occurrence is reported or overlaps a reported one: `i` is the
      report that covers `k`. */
  lemma {:induction false} OccurrencesComplete(s: string, pat: string, from: nat, k: nat) returns (i: nat)
    requires |pat| > 0 && from <= k && OccursAt(s, pat, k)
    ensures i < |Occurrences(s, pat, from)|
    ensures Occurrences(s, pat, from)[i] <= k < Occurrences(s, pat, from)[i] + |pat|
    decreases |s| - from
  {
    assert IndexOf(s, pat, from).Some?;
    var j := IndexOf(s, pat, from).value;
    assert from <= j <= k && j + |pat| <= |s|;
    if k < j + |pat| {
      i := 0;
      assert 0 < |Occurrences(s, pat, from)| && Occurrences(s, pat, from)[0] == j by {
        OccurrencesShift(s, pat, from, 0);
      }
    } else {
      var h := OccurrencesComplete(s, pat, j + |pat|, k);
      var rest := Occurrences(s, pat, j + |pat|);
      var x := rest[h];
      assert x <= k < x + |pat|;
      i := h + 1;
      assert i < |Occurrences(s, pat, from)| && Occurrences(s, pat, from)[i] == x by {
        OccurrencesShift(s, pat, from, i);
      }
    }
  }

  /** After the first report come the reports from the end of its match on. */
  lemma OccurrencesShift(s: string, pat: string, from: nat, i: nat)
    requires |pat| > 0 && IndexOf(s, pat, from).Some?
    requires i <= |Occurrences(s, pat, IndexOf(s, pat, from).value + |pat|)|
    ensures |Occurrences(s, pat, from)| == |Occurrences(s, pat, IndexOf(s, pat, from).value + |pat|)| + 1
    ensures Occurrences(s, pat, from)[i]
      == if i == 0 then IndexOf(s, pat, from).value else Occurrences(s, pat, IndexOf(s, pat, from).value + |pat|)[i - 1]
  {
    OccurrencesCons(s, pat, from);
  }

  /** An occurrence with none before it is the one `find` reports. */
  lemma IndexOfFirst(s: string, pat: string, from: nat, k: nat)
    requires |pat| > 0 && from <= k && OccursAt(s, pat, k)
    requires forall j :: from <= j < k ==> !OccursAt(s, pat, j)
    ensures IndexOf(s, pat, from) == Some(k)
  {
  }

  /** A pattern that occurs exactly once is found exactly once. */
  lemma OccurrencesSingle(s: string, pat: string, k: nat)
    requires |pat| > 0 && OccursAt(s, pat, k)
    requires forall j :: j != k ==> !OccursAt(s, pat, j)
    ensures Occurrences(s, pat, 0) == [k]
  {
    assert IndexOf(s, pat, 0) == Some(k);
    assert Occurrences(s, pat, k + |pat|) == [];
  }

  // ---------------------------------------------------------------------------
  // Splitting and joining

  /** `sep.join(parts)`. */
  function JoinWith(parts: seq<string>, sep: string): string
  {
    if |parts| == 0 then []
    else if |parts| == 1 then parts[0]
    else parts[0] + sep + JoinWith(parts[1..], sep)
  }

  /** `s.split(sep)`: at least one piece, no piece contains `sep`, and joining
      the pieces with `sep` gives back `s`. */
  function SplitOn(s: string, sep: string): (r: seq<string>)
    requires |sep| > 0
    ensures |r| >= 1
    ensures JoinWith(r, sep) == s
    ensures forall i, k :: 0 <= i < |r| ==> !OccursAt(r[i], sep, k)
    decreases |s|
  {
    match IndexOf(s, sep, 0)
    case None => [s]
    case Some(k) =>
      var head := s[..k];
      PrefixBeforeFirst(s, sep, k);
      var rest := SplitOn(s[k + |sep|..], sep);
      assert s == head + sep + s[k + |sep|..];
      [head] + rest
  }

  lemma PrefixBeforeFirst(s: string, sep: string, k: nat)
    requires |sep| > 0 && IndexOf(s, sep, 0) == Some(k)
    ensures forall j :: !OccursAt(s[..k], sep, j)
  {
    forall j: nat ensures !OccursAt(s[..k], sep, j) {
      if OccursAt(s[..k], sep, j) {
        assert s[..k][j..j + |sep|] == s[j..j + |sep|];
        assert OccursAt(s, sep, j);
      }
    }
  }

  /** The lines of `s` as `s.split("\n")` gives them. */
  function Lines(s: string): (r: seq<string>)
    ensures |r| >= 1
    ensures JoinWith(r, "\n") == s
    ensures forall i :: 0 <= i < |r| ==> '\n' !in r[i]
  {
    var r := SplitOn(s, "\n");
    NoNewlineInPieces(r);
    r
  }

  lemma NoNewlineInPieces(r: seq<string>)
    requires forall i, k :: 0 <= i < |r| ==> !OccursAt(r[i], "\n", k)
    ensures forall i :: 0 <= i < |r| ==> '\n' !in r[i]
  {
    forall i, j | 0 <= i < |r| && 0 <= j < |r[i]| ensures r[i][j] != '\n' {
      assert !OccursAt(r[i], "\n", j);
      assert r[i][j..j + 1] == [r[i][j]];
    }
  }

  /** The characters at which `str.splitlines` breaks a line. */
  predicate IsLineBreak(c: char) {
    c == '\n' || c == '\r' || c == '\U{0B}' || c == '\U{0C}' || ('\U{1C}' <= c <= '\U{1E}')
    || c == '\U{85}' || c == '\U{2028}' || c == '\U{2029}'
  }

  /** Index of the first line break in `s`, or `|s|` if there is none. */
  function BreakIndex(s: string): (k: nat)
    ensures k <= |s|
    ensures k < |s| ==> IsLineBreak(s[k])
    ensures forall j :: 0 <= j < k ==> !IsLineBreak(s[j])
  {
    if s == [] then 0
    else if IsLineBreak(s[0]) then 0
    else 1 + BreakIndex(s[1..])
  }

  /** `s.splitlines()`: "\r\n" counts as one break, a final break does not
      start an empty line, and the empty string has no lines. */
  function SplitLines(s: string): (r: seq<string>)
    ensures r == [] <==> s == []
    ensures forall i, j :: 0 <= i < |r| && 0 <= j < |r[i]| ==> !IsLineBreak(r[i][j])
    decreases |s|
  {
    if s == [] then []
    else
      var k := BreakIndex(s);
      if k == |s| then [s]
      else
        var w := if s[k] == '\r' && k + 1 < |s| && s[k + 1] == '\n' then 2 else 1;
        [s[..k]] + SplitLines(s[k + w..])
  }

  /** `s.replace(pat, rep)`, which is `rep.join(s.split(pat))`. */
  function ReplaceAll(s: string, pat: string, rep: string): (r: string)
    requires |pat| > 0
    ensures (forall k :: !OccursAt(s, pat, k)) ==> r == s
    ensures |pat| == |rep| ==> |r| == |s|
  {
    var parts := SplitOn(s, pat);
    JoinLengthBySeparator(parts, pat, rep);
    JoinWith(parts, rep)
  }

  lemma {:induction false} JoinLengthBySeparator(parts: seq<string>, a: string, b: string)
    ensures |a| == |b| ==> |JoinWith(parts, a)| == |JoinWith(parts, b)|
    decreases |parts|
  {
    if |parts| > 1 {
      JoinLengthBySeparator(parts[1..], a, b);
    }
  }

  /** The characters of `s` other than `c`, in order. */
  function Without(s: string, c: char): (r: string)
    ensures c !in r
  {
    if s == [] then [] else (if s[0] == c then [] else [s[0]]) + Without(s[1..], c)
  }

  /** Concatenating the pieces of `s.split(c)` is `s` with every `c` removed. */
  lemma {:induction false} ConcatOfSplitIsWithout(s: string, c: char)
    ensures Concat(SplitOn(s, [c])) == Without(s, c)
    decreases |s|
  {
    match IndexOf(s, [c], 0)
    case None =>
      NoOccurrenceNoChar(s, c);
      WithoutAbsent(s, c);
    case Some(k) =>
      ConcatOfSplitIsWithout(s[k + 1..], c);
      ConcatAtFirst(s, c, k);
      WithoutAtFirst(s, c, k);
  }

  /** The pieces of a split on `c` are the text before its first `c` and the
      pieces of the text after it. */
  lemma ConcatAtFirst(s: string, c: char, k: nat)
    requires IndexOf(s, [c], 0) == Some(k)
    ensures Concat(SplitOn(s, [c])) == s[..k] + Concat(SplitOn(s[k + 1..], [c]))
  {
    var pieces := SplitOn(s[k + 1..], [c]);
    assert SplitOn(s, [c]) == [s[..k]] + pieces;
    assert ([s[..k]] + pieces)[1..] == pieces;
  }

  /** The text before the first `c` holds no `c`, so removing `c` keeps it. */
  lemma BeforeFirstKept(s: string, c: char, k: nat)
    requires IndexOf(s, [c], 0) == Some(k)
    ensures Without(s[..k], c) == s[..k]
  {
    var head := s[..k];
    PrefixBeforeFirst(s, [c], k);
    forall j | 0 <= j < k ensures head[j] != c {
      assert !OccursAt(head, [c], j);
      assert head[j..j + 1] == [head[j]];
    }
    WithoutAbsent(head, c);
  }

  /** Removing `c` keeps the text before its first occurrence and drops that
      occurrence. */
  lemma WithoutAtFirst(s: string, c: char, k: nat)
    requires IndexOf(s, [c], 0) == Some(k)
    ensures Without(s, c) == s[..k] + Without(s[k + 1..], c)
  {
    BeforeFirstKept(s, c, k);
    assert s == s[..k] + ([c] + s[k + 1..]) by {
      assert s[k..k + 1] == [c];
    }
    WithoutAround(s[..k], s[k + 1..], c);
  }

  /** Removing `c` around one `c` removes it on both sides and drops it. */
  lemma WithoutAround(head: string, rest: string, c: char)
    ensures Without(head + ([c] + rest), c) == Without(head, c) + Without(rest, c)
  {
    WithoutAppend(head, [c] + rest, c);
    WithoutDropsFirst(rest, c);
  }

  /** A leading `c` is dropped. */
  lemma WithoutDropsFirst(rest: string, c: char)
    ensures Without([c] + rest, c) == Without(rest, c)
  {
    assert ([c] + rest)[1..] == rest;
  }

  lemma {:induction false} NoOccurrenceNoChar(s: string, c: char)
    requires IndexOf(s, [c], 0).None?
    ensures c !in s
  {
    if c in s {
      var j :| 0 <= j < |s| && s[j] == c;
      assert s[j..j + 1] == [c];
      assert OccursAt(s, [c], j);
    }
  }

  lemma {:induction false} WithoutAbsent(s: string, c: char)
    requires c !in s
    ensures Without(s, c) == s
    decreases |s|
  {
    if s != [] {
      assert c !in s[1..];
      WithoutAbsent(s[1..], c);
      assert s == [s[0]] + s[1..];
    }
  }

  lemma {:induction false} WithoutAppend(a: string, b: string, c: char)
    ensures Without(a + b, c) == Without(a, c) + Without(b, c)
    decreases |a|
  {
    if a != [] {
      assert (a + b)[1..] == a[1..] + b;
      WithoutAppend(a[1..], b, c);
    } else {
      assert a + b == b;
    }
  }

  // ---------------------------------------------------------------------------
  // Splitting on a separator, piece by piece

  /** With a one-character separator, the text before its first occurrence
      is the first piece and the rest is split in turn. */
  lemma SplitFirst(p: string, c: char, rest: string)
    requires c !in p
    ensures SplitOn(p + [c] + rest, [c]) == [p] + SplitOn(rest, [c])
  {
    var s := p + [c] + rest;
    assert OccursAt(s, [c], |p|) by { assert s[|p|..|p| + 1] == [c]; }
    forall j | 0 <= j < |p| ensures !OccursAt(s, [c], j) {
      assert s[j] == p[j] && p[j] in p;
    }
    IndexOfFirst(s, [c], 0, |p|);
    assert s[..|p|] == p;
    assert s[|p| + 1..] == rest;
  }

  /** A text without a one-character separator is a single piece. */
  lemma SplitAbsent(s: string, c: char)
    requires c !in s
    ensures SplitOn(s, [c]) == [s]
  {
    forall j: nat ensures !OccursAt(s, [c], j) {
      if j < |s| {
        assert s[j] in s;
        assert s[j..j + 1] == [s[j]];
      }
    }
  }

  /** No piece of a split on one character contains that character. */
  lemma NoCharInPieces(r: seq<string>, c: char)
    requires forall i, k :: 0 <= i < |r| ==> !OccursAt(r[i], [c], k)
    ensures forall i :: 0 <= i < |r| ==> c !in r[i]
  {
    forall i, j | 0 <= i < |r| && 0 <= j < |r[i]| ensures r[i][j] != c {
      assert !OccursAt(r[i], [c], j);
      assert r[i][j..j + 1] == [r[i][j]];
    }
  }

  /** A character in neither the pieces nor the separator is not in their
      join. */
  lemma {:induction false} JoinWithoutChar(parts: seq<string>, sep: string, c: char)
    requires c !in sep
    requires forall i :: 0 <= i < |parts| ==> c !in parts[i]
    ensures c !in JoinWith(parts, sep)
    decreases |parts|
  {
    if |parts| > 1 {
      JoinWithoutChar(parts[1..], sep, c);
    }
  }

  /** The pieces of a join occur in it. */
  lemma {:induction false} CharOfPiece(parts: seq<string>, sep: string, c: char)
    requires c !in JoinWith(parts, sep)
    ensures forall i :: 0 <= i < |parts| ==> c !in parts[i]
    decreases |parts|
  {
    if |parts| > 1 {
      CharOfPiece(parts[1..], sep, c);
      assert forall i :: 1 <= i < |parts| ==> parts[i] == parts[1..][i - 1];
    }
  }

  /** A separator no proper suffix of which is also a prefix: two of its
      occurrences cannot overlap. */
  predicate Borderless(sep: string) {
    forall d :: 0 < d < |sep| ==> sep[d..] != sep[..|sep| - d]
  }

  /** Splitting two texts joined by a borderless separator gives the pieces
      of the first followed by those of the second. */
  lemma {:induction false} SplitJoined(a: string, b: string, sep: string)
    requires |sep| > 0 && Borderless(sep)
    ensures SplitOn(a + sep + b, sep) == SplitOn(a, sep) + SplitOn(b, sep)
    decreases |a|
  {
    match IndexOf(a, sep, 0)
    case None =>
      SplitAtJoint(a, b, sep);
    case Some(k) =>
      var rest := a[k + |sep|..];
      SplitBeforeJoint(a, b, sep, k);
      SplitJoined(rest, b, sep);
      ListAssociate([a[..k]], SplitOn(rest, sep), SplitOn(b, sep));
  }

  lemma ListAssociate(x: seq<string>, y: seq<string>, z: seq<string>)
    ensures x + (y + z) == (x + y) + z
  {
  }

  /** When the first text has no separator, the first one is the joint. */
  lemma SplitAtJoint(a: string, b: string, sep: string)
    requires |sep| > 0 && Borderless(sep) && IndexOf(a, sep, 0).None?
    ensures SplitOn(a + sep + b, sep) == [a] + SplitOn(b, sep)
    ensures SplitOn(a, sep) == [a]
  {
    var s := a + sep + b;
    assert s[..|a|] == a;
    assert s[|a|..|a| + |sep|] == sep;
    forall j | 0 <= j < |a| ensures !OccursAt(s, sep, j) {
      if j + |sep| <= |a| {
        assert a[j..j + |sep|] == s[j..j + |sep|];
        assert !OccursAt(a, sep, j);
      } else if OccursAt(s, sep, j) {
        Overlap(s, sep, j, |a|);
      }
    }
    IndexOfFirst(s, sep, 0, |a|);
    assert s[|a| + |sep|..] == b;
  }

  /** When the first text has a separator at `k`, that one is found first. */
  lemma SplitBeforeJoint(a: string, b: string, sep: string, k: nat)
    requires |sep| > 0 && IndexOf(a, sep, 0) == Some(k)
    ensures k + |sep| <= |a|
    ensures SplitOn(a + sep + b, sep) == [a[..k]] + SplitOn(a[k + |sep|..] + sep + b, sep)
    ensures SplitOn(a, sep) == [a[..k]] + SplitOn(a[k + |sep|..], sep)
  {
    var s := a + sep + b;
    forall j | 0 <= j < k ensures !OccursAt(s, sep, j) {
      assert a[j..j + |sep|] == s[j..j + |sep|];
      assert !OccursAt(a, sep, j);
    }
    assert a[k..k + |sep|] == s[k..k + |sep|];
    IndexOfFirst(s, sep, 0, k);
    assert s[k + |sep|..] == a[k + |sep|..] + sep + b;
    assert s[..k] == a[..k];
  }

  /** Two overlapping occurrences of a separator: the part they share is
      both a suffix and a prefix of it. */
  lemma Overlap(s: string, sep: string, j: nat, i: nat)
    requires OccursAt(s, sep, j) && OccursAt(s, sep, i) && j < i < j + |sep|
    ensures sep[i - j..] == sep[..|sep| - (i - j)]
  {
    var d := i - j;
    assert sep[d..] == s[i..j + |sep|] by {
      assert s[j..j + |sep|][d..] == s[i..j + |sep|];
    }
    assert sep[..|sep| - d] == s[i..j + |sep|] by {
      assert s[i..i + |sep|][..|sep| - d] == s[i..j + |sep|];
    }
  }

  // ---------------------------------------------------------------------------
  // Decimal numbers (`str(n)`)

  predicate IsDigit(c: char) { '0' <= c <= '9' }

  function DigitChar(d: nat): (c: char)
    requires d < 10
    ensures IsDigit(c) && c as int - '0' as int == d
  {
    (d + '0' as int) as char
  }

  /** The number a string of decimal digits denotes. */
  function DigitsValue(s: string): nat
    requires forall i :: 0 <= i < |s| ==> IsDigit(s[i])
  {
    if s == [] then 0
    else
      assert IsDigit(s[|s| - 1]);
      DigitsValue(s[..|s| - 1]) * 10 + (s[|s| - 1] as int - '0' as int)
  }

  /** `str(n)`: decimal digits without a leading zero that denote `n`. */
  function NatToString(n: nat): (r: string)
    ensures |r| >= 1
    ensures forall i :: 0 <= i < |r| ==> IsDigit(r[i])
    ensures n > 0 ==> r[0] != '0'
    ensures DigitsValue(r) == n
  {
    if n < 10 then [DigitChar(n)]
    else
      var prefix := NatToString(n / 10);
      var r := prefix + [DigitChar(n % 10)];
      assert r[..|r| - 1] == prefix;
      r
  }
}

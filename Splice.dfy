/** The converter's way of rewriting a string: collect the places to change
    from one snapshot, then walk them from the last to the first and splice
    each one in with `result = result[:start] + text + result[endpos:]`.
    Walking backwards keeps the earlier offsets valid; the lemmas here show
    that the outcome is the snapshot with every span replaced, left to right. */
module Splice {
  import opened Strings

  /** Replace the `len` characters at `start` by `text`. */
  datatype Edit = Edit(start: nat, len: nat, text: string)
  {
    function End(): nat { start + len }
  }

  /** One splice, with Python's clamping of slice bounds. */
  function Apply(b: string, e: Edit): string
  {
    Take(b, e.start) + e.text + Drop(b, e.End())
  }

  /** The source's loop: the edits applied from the last one back to the first. */
  function ApplyReverse(b: string, es: seq<Edit>): string
    decreases |es|
  {
    if es == [] then b else ApplyReverse(Apply(b, es[|es| - 1]), es[..|es| - 1])
  }

  /** The edits lie inside `from..n`, in increasing order, without overlapping. */
  predicate Ordered(es: seq<Edit>, from: nat, n: nat) {
    from <= n
    && (forall i :: 0 <= i < |es| ==> from <= es[i].start && es[i].End() <= n)
    && (forall i, j :: 0 <= i < j < |es| ==> es[i].End() <= es[j].start)
  }

  lemma OrderedTail(es: seq<Edit>, from: nat, n: nat)
    requires Ordered(es, from, n) && es != []
    ensures Ordered(es[1..], es[0].End(), n)
  {
    forall i | 0 <= i < |es[1..]| ensures es[0].End() <= es[1..][i].start {
      assert es[1..][i] == es[i + 1];
    }
  }

  /** Splicing a span that ends exactly where the kept tail `q` starts. */
  lemma ApplyBeforeTail(p: string, q: string, e: Edit)
    requires e.End() == |p|
    ensures Apply(p + q, e) == p[..e.start] + e.text + q
  {
    assert Take(p + q, e.start) == p[..e.start];
    assert Drop(p + q, e.End()) == q;
  }

  /** Splicing exactly the span of `mid` out of `p + mid + rest`. */
  lemma ApplyInside(p: string, mid: string, rest: string, n: nat, text: string)
    requires n == |mid|
    ensures Apply(p + mid + rest, Edit(|p|, n, text)) == p + text + rest
  {
    var s := p + mid + rest;
    assert Take(s, |p|) == p;
    assert Drop(s, |p| + n) == rest;
  }

  /** The intended outcome, read left to right: the text before the first span,
      its replacement, the text up to the next span, and so on to the end. */
  function Forward(b: string, es: seq<Edit>, from: nat): string
    requires Ordered(es, from, |b|)
    decreases |es|
  {
    if es == [] then b[from..]
    else
      OrderedTail(es, from, |b|);
      b[from..es[0].start] + es[0].text + Forward(b, es[1..], es[0].End())
  }

  function Stitched(b: string, es: seq<Edit>): string
    requires Ordered(es, 0, |b|)
  {
    Forward(b, es, 0)
  }

  lemma ApplyReverseSingle(b: string, e: Edit)
    ensures ApplyReverse(b, [e]) == Apply(b, e)
  {
    assert [e][..0] == [];
  }

  lemma ApplyReverseTwo(b: string, es: seq<Edit>)
    requires |es| == 2
    ensures ApplyReverse(b, es) == Apply(Apply(b, es[1]), es[0])
  {
    assert es[..1] == [es[0]];
    ApplyReverseSingle(Apply(b, es[1]), es[0]);
  }

  lemma PrefixSplit(b: string, i: nat, j: nat, k: nat)
    requires i <= j <= k <= |b|
    ensures b[..k][..j] == b[..i] + b[i..j]
  {
  }

  lemma Associate4(a: string, b: string, c: string, d: string)
    ensures (a + b) + c + d == a + (b + c + d)
  {
  }

  /** Applying a list backwards is applying its tail first, then its head part. */
  lemma {:induction false} ApplyReverseAppend(b: string, xs: seq<Edit>, ys: seq<Edit>)
    ensures ApplyReverse(b, xs + ys) == ApplyReverse(ApplyReverse(b, ys), xs)
    decreases |ys|
  {
    if ys == [] {
      assert xs + ys == xs;
    } else {
      var last := ys[|ys| - 1];
      var init := ys[..|ys| - 1];
      assert (xs + ys)[..|xs + ys| - 1] == xs + init;
      assert (xs + ys)[|xs + ys| - 1] == last;
      ApplyReverseAppend(Apply(b, last), xs, init);
    }
  }

  lemma ApplyReverseStep(b: string, es: seq<Edit>, i: nat)
    requires i < |es|
    ensures ApplyReverse(b, es[i..]) == Apply(ApplyReverse(b, es[i + 1..]), es[i])
  {
    assert es[i..] == [es[i]] + es[i + 1..];
    ApplyReverseAppend(b, [es[i]], es[i + 1..]);
    ApplyReverseSingle(ApplyReverse(b, es[i + 1..]), es[i]);
  }

  /** Splicing ordered, non-overlapping spans from the back gives the same
      string as replacing them one after the other from the front. */
  lemma {:induction false} ApplyReverseIsForward(b: string, es: seq<Edit>, from: nat)
    requires Ordered(es, from, |b|)
    ensures ApplyReverse(b, es) == b[..from] + Forward(b, es, from)
    decreases |es|
  {
    if es == [] {
      assert b == b[..from] + b[from..];
    } else {
      var e := es[0];
      var rest := es[1..];
      assert from <= e.start <= e.End() <= |b|;
      assert es == [e] + rest;
      ApplyReverseAppend(b, [e], rest);
      OrderedTail(es, from, |b|);
      ApplyReverseIsForward(b, rest, e.End());
      var tail := Forward(b, rest, e.End());
      var mid := ApplyReverse(b, rest);
      ApplyReverseSingle(mid, e);
      ApplyBeforeTail(b[..e.End()], tail, e);
      PrefixSplit(b, from, e.start, e.End());
      var gap := b[from..e.start];
      assert Forward(b, es, from) == gap + e.text + tail;
      assert ApplyReverse(b, es) == Apply(mid, e);
      assert Apply(mid, e) == (b[..from] + gap) + e.text + tail;
      Associate4(b[..from], gap, e.text, tail);
    }
  }

  lemma ApplyReverseIsStitched(b: string, es: seq<Edit>)
    ensures Ordered(es, 0, |b|) ==> ApplyReverse(b, es) == Stitched(b, es)
  {
    if Ordered(es, 0, |b|) {
      ApplyReverseIsForward(b, es, 0);
    }
  }

  /** The loop every substitution pass of the converter ends with: walk the
      edits from the last to the first, splicing each into the running result. */
  method ApplyEdits(b: string, es: seq<Edit>) returns (r: string)
    ensures r == ApplyReverse(b, es)
    ensures Ordered(es, 0, |b|) ==> r == Stitched(b, es)
  {
    r := b;
    var i := |es|;
    while i > 0
      invariant 0 <= i <= |es|
      invariant r == ApplyReverse(b, es[i..])
    {
      i := i - 1;
      ApplyReverseStep(b, es, i);
      r := Apply(r, es[i]);
    }
    assert es[0..] == es;
    ApplyReverseIsStitched(b, es);
  }
}

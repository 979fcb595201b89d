/** The fix-up of nested admonitions in the base file. Every fence line is
    found, and one that carries a `{name}` counts as an opener, any other one
    as a closer. Walking the fences from the last to the first, each closer
    searches back for its opener, counting how deeply the fences between them
    nest; when they do, the closer gets that many extra backticks, and the
    count is stored for the opener, which gets the same number when the walk
    reaches it. */
module Fences {
  import opened Strings
  import opened Splice

  /** A fence line: where it starts and whether it opens an admonition. */
  datatype Fence = Fence(start: nat, opens: bool)

  /** `n` backticks. */
  function Ticks(n: nat): string {
    Repeat('`', n)
  }

  // ---------------------------------------------------------------------------
  // The backward search of a closer

  /** The search loop from index `pos`, `local` levels deep, with the deepest
      level so far in `level`: it goes on while `pos > 0` and either it is
      inside a nested pair or the fence at `pos` is a closer. It returns the
      deepest level and the index where it stopped. */
  function Scan(fs: seq<Fence>, pos: int, local: nat, level: nat): (r: (nat, int))
    requires pos < |fs|
    ensures r.0 >= level && r.1 <= pos
    ensures r.1 < pos ==> 0 <= r.1
    ensures r.0 > level ==> r.1 < pos
    decreases pos
  {
    if pos > 0 && (local > 0 || !fs[pos].opens) then
      if !fs[pos].opens then Scan(fs, pos - 1, local + 1, if local + 1 > level then local + 1 else level)
      else Scan(fs, pos - 1, local - 1, level)
    else (level, pos)
  }

  /** The number of extra backticks the closer at `m` gets. */
  function CloserLevel(fs: seq<Fence>, m: nat): nat
    requires m < |fs|
  {
    Scan(fs, m - 1, 0, 0).0
  }

  /** Where the search of the closer at `m` stopped: its opener. */
  function Partner(fs: seq<Fence>, m: nat): int
    requires m < |fs|
  {
    Scan(fs, m - 1, 0, 0).1
  }

  lemma PartnerBefore(fs: seq<Fence>, m: nat)
    requires m < |fs|
    ensures Partner(fs, m) < m
    ensures CloserLevel(fs, m) > 0 ==> 0 <= Partner(fs, m)
  {
  }

  // ---------------------------------------------------------------------------
  // The walk

  /** The stored levels after the entry `k` has been handled: a closer with
      nested content stores its level at its opener. */
  function Update(fs: seq<Fence>, k: nat, lv: seq<nat>): (r: seq<nat>)
    requires k < |fs| && |lv| == |fs|
    ensures |r| == |fs|
  {
    if !fs[k].opens && CloserLevel(fs, k) > 0 then
      PartnerBefore(fs, k);
      lv[Partner(fs, k) := CloserLevel(fs, k)]
    else lv
  }

  /** The stored levels once the entries from `k` to the last are handled. */
  function LevelsAfter(fs: seq<Fence>, k: nat): (r: seq<nat>)
    requires k <= |fs|
    ensures |r| == |fs|
    decreases |fs| - k
  {
    if k == |fs| then seq(|fs|, _ => 0) else Update(fs, k, LevelsAfter(fs, k + 1))
  }

  function Levels(fs: seq<Fence>): (r: seq<nat>)
    ensures |r| == |fs|
  {
    LevelsAfter(fs, 0)
  }

  /** The extra backticks of the fence at `i`: an opener's stored level, a
      closer's own. */
  function Extra(fs: seq<Fence>, lv: seq<nat>, i: nat): nat
    requires i < |fs| && |lv| == |fs|
  {
    if fs[i].opens then lv[i] else CloserLevel(fs, i)
  }

  /** The insertions the walk makes: backticks at the start of each fence. */
  function Insertions(fs: seq<Fence>): (r: seq<Edit>)
    ensures |r| == |fs|
  {
    seq(|fs|, i requires 0 <= i < |fs| => Edit(fs[i].start, 0, Ticks(Extra(fs, Levels(fs), i))))
  }

  /** The outcome of the fix-up. */
  function FencesFixed(s: string, fs: seq<Fence>): string {
    ApplyReverse(s, Insertions(fs))
  }

  /** The walk from the last fence to the first; files other than the base
      file are left alone. */
  method FixNestedFences(s: string, fs: seq<Fence>, isBaseFile: bool) returns (r: string)
    ensures r == if isBaseFile then FencesFixed(s, fs) else s
    ensures isBaseFile && Increasing(s, fs) ==> Ordered(Insertions(fs), 0, |s|) && r == Stitched(s, Insertions(fs))
  {
    r := s;
    if isBaseFile {
      var levels: seq<nat> := seq(|fs|, _ => 0);
      var k := |fs|;
      while k > 0
        invariant 0 <= k <= |fs|
        invariant levels == LevelsAfter(fs, k)
        invariant r == ApplyReverse(s, Insertions(fs)[k..])
      {
        k := k - 1;
        ghost var prev := r;
        var f := fs[k];
        var extra := 0;
        if f.opens {
          extra := levels[k];
          if levels[k] > 0 {
            r := Take(r, f.start) + Ticks(levels[k]) + Drop(r, f.start);
          }
          LevelsStable(fs, k, 0);
        } else {
          var level, pos := SearchOpener(fs, k);
          extra := level;
          if level > 0 {
            r := Take(r, f.start) + Ticks(level) + Drop(r, f.start);
            levels := levels[pos := level];
          }
        }
        FenceStep(s, fs, k, extra, prev, r);
      }
      if Increasing(s, fs) {
        InsertionsOrdered(s, fs);
        ApplyReverseIsStitched(s, Insertions(fs));
      }
    }
  }

  /** The fences start at increasing offsets inside the text. */
  predicate Increasing(s: string, fs: seq<Fence>) {
    && (forall i, j :: 0 <= i < j < |fs| ==> fs[i].start < fs[j].start)
    && (|fs| > 0 ==> fs[|fs| - 1].start <= |s|)
  }

  /** The inner loop of the walk: the search back from the closer at `m`. */
  method SearchOpener(fs: seq<Fence>, m: nat) returns (level: nat, pos: int)
    requires m < |fs|
    ensures level == CloserLevel(fs, m) && pos == Partner(fs, m)
  {
    var local: nat := 0;
    level := 0;
    pos := m - 1;
    while pos > 0 && (local > 0 || !fs[pos].opens)
      invariant pos < m
      invariant Scan(fs, pos, local, level) == Scan(fs, m - 1, 0, 0)
      decreases pos
    {
      if !fs[pos].opens {
        local := local + 1;
        if local > level {
          level := local;
        }
      } else {
        local := local - 1;
      }
      pos := pos - 1;
    }
  }

  /** One turn of the walk. */
  lemma FenceStep(s: string, fs: seq<Fence>, k: nat, extra: nat, prev: string, r: string)
    requires k < |fs| && extra == Extra(fs, Levels(fs), k)
    requires prev == ApplyReverse(s, Insertions(fs)[k + 1..])
    requires extra == 0 ==> r == prev
    requires extra > 0 ==> r == Take(prev, fs[k].start) + Ticks(extra) + Drop(prev, fs[k].start)
    ensures r == ApplyReverse(s, Insertions(fs)[k..])
  {
    ApplyReverseStep(s, Insertions(fs), k);
    if extra == 0 {
      assert Ticks(0) == [];
      TakeDrop(prev, fs[k].start);
    }
  }

  lemma TakeDrop(s: string, n: nat)
    ensures Take(s, n) + [] + Drop(s, n) == s
  {
  }

  /** Handling the entry `k` and the ones before it leaves the stored level
      of the entry `i` as it was once the entries after `i` were handled:
      a closer only ever stores a level before itself. */
  lemma {:induction false} LevelsStable(fs: seq<Fence>, i: nat, j: nat)
    requires j <= i < |fs|
    ensures LevelsAfter(fs, j)[i] == LevelsAfter(fs, i + 1)[i]
    decreases i - j
  {
    if j < i {
      LevelsStable(fs, i, j + 1);
    }
    PartnerBefore(fs, j);
  }

  lemma InsertionsOrdered(s: string, fs: seq<Fence>)
    requires Increasing(s, fs)
    ensures Ordered(Insertions(fs), 0, |s|)
  {
    var es := Insertions(fs);
    forall i | 0 <= i < |es| ensures es[i].End() <= |s| {
      if i < |fs| - 1 {
        assert fs[i].start < fs[|fs| - 1].start;
      }
    }
  }

  // ---------------------------------------------------------------------------
  // Both ends of a pair

  /** Closers minus openers among the fences `i` to `j - 1`. */
  function Excess(fs: seq<Fence>, i: nat, j: nat): int
    requires i <= j <= |fs|
    decreases j - i
  {
    if i == j then 0 else (if fs[i].opens then -1 else 1) + Excess(fs, i + 1, j)
  }

  lemma {:induction false} ExcessSplit(fs: seq<Fence>, i: nat, j: nat, k: nat)
    requires i <= j <= k <= |fs|
    ensures Excess(fs, i, k) == Excess(fs, i, j) + Excess(fs, j, k)
    decreases j - i
  {
    if i < j {
      ExcessSplit(fs, i + 1, j, k);
    }
  }

  /** What the search of the closer at `m` has seen: from every fence it
      passed to the closer there are at least as many closers as openers,
      and where it stopped at an index above 0 there is an opener with as
      many closers as openers between it and `m`. */
  lemma {:induction false} ScanFacts(fs: seq<Fence>, m: nat, pos: int, local: nat, level: nat)
    requires -1 <= pos < m <= |fs|
    requires local == Excess(fs, pos + 1, m)
    requires forall k :: pos < k < m ==> Excess(fs, k, m) >= 0
    ensures var p := Scan(fs, pos, local, level).1;
      && (forall k :: p < k < m ==> Excess(fs, k, m) >= 0)
      && (p > 0 ==> fs[p].opens && Excess(fs, p + 1, m) == 0)
    decreases pos
  {
    if pos > 0 && (local > 0 || !fs[pos].opens) {
      var local' := if !fs[pos].opens then local + 1 else local - 1;
      assert local' == Excess(fs, pos, m);
      ScanFacts(fs, m, pos - 1, local', if !fs[pos].opens && local + 1 > level then local + 1 else level);
    }
  }

  lemma PartnerFacts(fs: seq<Fence>, m: nat)
    requires m < |fs|
    ensures var p := Partner(fs, m);
      && (forall k :: p < k <= m ==> Excess(fs, k, m) >= 0)
      && (p > 0 ==> fs[p].opens && Excess(fs, p + 1, m) == 0)
  {
    ScanFacts(fs, m, m - 1, 0, 0);
  }

  /** No two closers stop their searches at the same opener, unless it is
      the first fence. */
  lemma PartnerUnique(fs: seq<Fence>, m1: nat, m2: nat)
    requires m1 < m2 < |fs| && !fs[m1].opens
    requires Partner(fs, m1) > 0
    ensures Partner(fs, m1) != Partner(fs, m2)
  {
    var p := Partner(fs, m1);
    PartnerFacts(fs, m1);
    PartnerFacts(fs, m2);
    PartnerBefore(fs, m1);
    ExcessSplit(fs, p + 1, m1, m2);
    assert Excess(fs, m1, m2) == 1 + Excess(fs, m1 + 1, m2);
    if Partner(fs, m2) == p {
      assert false;
    }
  }

  /** The level a closer stores at its opener survives the rest of the walk. */
  lemma {:induction false} StoredLevelKept(fs: seq<Fence>, m: nat, j: nat)
    requires j <= m < |fs| && !fs[m].opens && CloserLevel(fs, m) > 0 && Partner(fs, m) > 0
    ensures LevelsAfter(fs, j)[Partner(fs, m)] == CloserLevel(fs, m)
    decreases m - j
  {
    PartnerBefore(fs, j);
    if j < m {
      StoredLevelKept(fs, m, j + 1);
      if !fs[j].opens && Partner(fs, j) == Partner(fs, m) {
        PartnerBefore(fs, m);
        PartnerUnique(fs, j, m);
      }
    }
  }

  /** A closer with nested content and the opener its search stopped at get
      the same number of extra backticks. */
  lemma PairedTicks(fs: seq<Fence>, m: nat)
    requires m < |fs| && !fs[m].opens && CloserLevel(fs, m) > 0 && Partner(fs, m) > 0
    ensures fs[Partner(fs, m)].opens
    ensures Insertions(fs)[Partner(fs, m)].text == Insertions(fs)[m].text == Ticks(CloserLevel(fs, m))
  {
    PartnerFacts(fs, m);
    PartnerBefore(fs, m);
    StoredLevelKept(fs, m, 0);
  }

  /** No closer stores a level at the opener right before the closer at `m`. */
  lemma {:induction false} LeafLevelZero(fs: seq<Fence>, m: nat, j: nat)
    requires 2 <= m < |fs| && fs[m - 1].opens && !fs[m].opens
    requires j <= |fs|
    ensures LevelsAfter(fs, j)[m - 1] == 0
    decreases |fs| - j
  {
    if j < |fs| {
      LeafLevelZero(fs, m, j + 1);
      PartnerBefore(fs, j);
      if !fs[j].opens && CloserLevel(fs, j) > 0 && j > m {
        PartnerUnique(fs, m, j);
      }
    }
  }

  /** A closer right after an opener gets no extra backticks, and neither
      does that opener, unless it is the first fence. */
  lemma LeafUnchanged(fs: seq<Fence>, m: nat)
    requires 2 <= m < |fs| && fs[m - 1].opens && !fs[m].opens
    ensures Partner(fs, m) == m - 1 && CloserLevel(fs, m) == 0
    ensures Insertions(fs)[m].text == "" && Insertions(fs)[m - 1].text == ""
  {
    LeafLevelZero(fs, m, 0);
  }

  // ---------------------------------------------------------------------------
  // Nesting depth

  /** An admonition and the admonitions nested in it. */
  datatype Admonition = Admonition(inner: seq<Admonition>)

  /** Its fences, opener first. */
  function Shape(a: Admonition): seq<bool>
    decreases a
  {
    [true] + ShapeAll(a.inner) + [false]
  }

  function ShapeAll(as_: seq<Admonition>): seq<bool>
    decreases as_
  {
    if as_ == [] then [] else ShapeAll(as_[..|as_| - 1]) + Shape(as_[|as_| - 1])
  }

  /** How deeply the admonitions `as_` nest: 0 for none. */
  function Nesting(as_: seq<Admonition>): nat
    decreases as_
  {
    if as_ == [] then 0
    else
      var a := Nesting(as_[..|as_| - 1]);
      var b := 1 + Nesting(as_[|as_| - 1].inner);
      if a > b then a else b
  }

  /** The fences from `at` on have the kinds `w`. */
  predicate Laid(fs: seq<Fence>, at: nat, w: seq<bool>) {
    at + |w| <= |fs| && forall i :: 0 <= i < |w| ==> fs[at + i].opens == w[i]
  }

  lemma LaidSplit(fs: seq<Fence>, at: nat, u: seq<bool>, v: seq<bool>)
    requires Laid(fs, at, u + v)
    ensures Laid(fs, at, u) && Laid(fs, at + |u|, v)
  {
    forall i | 0 <= i < |u| ensures fs[at + i].opens == u[i] {
      assert (u + v)[i] == u[i];
    }
    forall i | 0 <= i < |v| ensures fs[at + |u| + i].opens == v[i] {
      assert (u + v)[|u| + i] == v[i];
    }
  }

  /** An admonition's fences: its opener, the fences of the admonitions
      inside it, and its closer. */
  lemma EndsOf(fs: seq<Fence>, at: nat, a: Admonition)
    requires Laid(fs, at, Shape(a))
    ensures |Shape(a)| == |ShapeAll(a.inner)| + 2
    ensures fs[at].opens && !fs[at + |Shape(a)| - 1].opens
    ensures Laid(fs, at + 1, ShapeAll(a.inner))
  {
    var w := ShapeAll(a.inner);
    var u := [true] + w;
    LaidSplit(fs, at, u, [false]);
    LaidSplit(fs, at, [true], w);
    assert fs[at + 0].opens == [true][0];
    assert fs[at + |u| + 0].opens == [false][0];
  }

  /** The search passes over a whole run of nested admonitions, and the
      deepest level it reaches there is their nesting below the level it
      came in at. */
  lemma {:induction false} ScanOverAll(fs: seq<Fence>, at: nat, as_: seq<Admonition>, local: nat, level: nat)
    requires 1 <= at && Laid(fs, at, ShapeAll(as_)) && local <= level
    ensures Scan(fs, at + |ShapeAll(as_)| - 1, local, level)
      == Scan(fs, at - 1, local, if level > local + Nesting(as_) then level else local + Nesting(as_))
    decreases |ShapeAll(as_)|, 1
  {
    if as_ != [] {
      var init := as_[..|as_| - 1];
      var last := as_[|as_| - 1];
      LaidSplit(fs, at, ShapeAll(init), Shape(last));
      var mid := at + |ShapeAll(init)|;
      var level' := if level > local + 1 + Nesting(last.inner) then level else local + 1 + Nesting(last.inner);
      var n := local + Nesting(init);
      var final := if level' > n then level' else n;
      calc {
        Scan(fs, at + |ShapeAll(as_)| - 1, local, level);
        { assert ShapeAll(as_) == ShapeAll(init) + Shape(last); }
        Scan(fs, mid + |Shape(last)| - 1, local, level);
        { ScanOverOne(fs, mid, last, local, level); }
        Scan(fs, mid - 1, local, level');
        { ScanOverAll(fs, at, init, local, level'); }
        Scan(fs, at - 1, local, final);
      }
      assert final == if level > local + Nesting(as_) then level else local + Nesting(as_);
    }
  }

  lemma {:induction false} ScanOverOne(fs: seq<Fence>, at: nat, a: Admonition, local: nat, level: nat)
    requires 1 <= at && Laid(fs, at, Shape(a)) && local <= level
    ensures Scan(fs, at + |Shape(a)| - 1, local, level)
      == Scan(fs, at - 1, local, if level > local + 1 + Nesting(a.inner) then level else local + 1 + Nesting(a.inner))
    decreases |Shape(a)|, 0
  {
    var m := at + |Shape(a)| - 1;
    EndsOf(fs, at, a);
    var up := if local + 1 > level then local + 1 else level;
    assert Scan(fs, m, local, level) == Scan(fs, m - 1, local + 1, up);
    ScanOverAll(fs, at + 1, a.inner, local + 1, up);
  }

  /** The closer of an admonition gets as many extra backticks as the
      admonitions inside it nest, and its search stops at its own opener. */
  lemma NestedPair(fs: seq<Fence>, at: nat, a: Admonition)
    requires Laid(fs, at, Shape(a))
    ensures var m := at + |Shape(a)| - 1;
      && !fs[m].opens && CloserLevel(fs, m) == Nesting(a.inner) && Partner(fs, m) == at
  {
    EndsOf(fs, at, a);
    ScanOverAll(fs, at + 1, a.inner, 0, 0);
  }

  /** An admonition with admonitions inside it, other than the first fence
      of the file, gets the same number of extra backticks at both ends:
      the depth of the nesting inside it. */
  lemma NestedAdmonitionTicks(fs: seq<Fence>, at: nat, a: Admonition)
    requires Laid(fs, at, Shape(a)) && at > 0 && a.inner != []
    ensures var m := at + |Shape(a)| - 1;
      && Insertions(fs)[at].text == Ticks(Nesting(a.inner))
      && Insertions(fs)[m].text == Ticks(Nesting(a.inner))
      && Nesting(a.inner) > 0
  {
    NestedPair(fs, at, a);
    PairedTicks(fs, at + |Shape(a)| - 1);
  }
}

/**
 * The replace loop the scripts get from their regex libraries, independent of
 * any one pattern: the leftmost match, a global replacement (JavaScript `g`
 * flag, Python `re.sub` without a count) that resumes after each match, and a
 * single replacement (`re.subn(..., count=1)`).
 *
 * A pattern is seen here only through its matcher, which reports the match
 * starting at each position, and its renderer, which says what a match is
 * replaced by.
 */
module Engine {
  import opened Common
  import opened Text

  /**
   * A match: where it starts, the cut points the replacement needs (group
   * boundaries), and where it ends.
   */
  datatype Hit = Hit(start: nat, cuts: seq<nat>, end: nat)

  /** The match starting at each position, if any. */
  type Matcher = nat -> Option<Hit>

  /** Every reported match starts where it was asked for, is non-empty and ends inside a text of length `n`. */
  ghost predicate Advances(m: Matcher, n: nat) {
    forall p: nat :: m(p).Some? ==> m(p).value.start == p < m(p).value.end <= n
  }

  /** The leftmost match starting at or after `from`. */
  function Leftmost(m: Matcher, n: nat, from: nat): (o: Option<Hit>)
    requires from <= n && Advances(m, n)
    ensures o.Some? ==> from <= o.value.start < o.value.end <= n && m(o.value.start) == o
    ensures forall p: nat :: from <= p && (o.None? || p < o.value.start) ==> m(p).None?
    decreases n - from
  {
    if from == n then None
    else if m(from).Some? then m(from)
    else Leftmost(m, n, from + 1)
  }

  /** The text from index `from` on after a global replacement. */
  function ReplaceFrom(m: Matcher, render: Hit -> string, t: string, from: nat): string
    requires from <= |t| && Advances(m, |t|)
    decreases |t| - from
  {
    match Leftmost(m, |t|, from)
    case None => t[from..]
    case Some(h) => t[from..h.start] + render(h) + ReplaceFrom(m, render, t, h.end)
  }

  /** The chain of matches a global replacement visits, from `from` on. */
  function Hits(m: Matcher, n: nat, from: nat): seq<Hit>
    requires from <= n && Advances(m, n)
    decreases n - from
  {
    match Leftmost(m, n, from)
    case None => []
    case Some(h) => [h] + Hits(m, n, h.end)
  }

  /**
   * `hs` is the chain of leftmost non-overlapping matches from `from` on:
   * each link is the match reported at its start, no match starts between
   * the point where the search resumes and that start, and no match starts
   * after the last link.
   */
  ghost predicate LeftmostChain(m: Matcher, hs: seq<Hit>, from: nat)
    decreases |hs|
  {
    if hs == [] then
      forall p: nat :: from <= p ==> m(p).None?
    else
      && from <= hs[0].start
      && m(hs[0].start) == Some(hs[0])
      && (forall p: nat :: from <= p < hs[0].start ==> m(p).None?)
      && LeftmostChain(m, hs[1..], hs[0].end)
  }

  /** The global replacement visits exactly the leftmost non-overlapping matches. */
  lemma {:induction false} HitsAreLeftmostChain(m: Matcher, n: nat, from: nat)
    requires from <= n && Advances(m, n)
    ensures LeftmostChain(m, Hits(m, n, from), from)
    decreases n - from
  {
    var o := Leftmost(m, n, from);
    if o.Some? {
      var h := o.value;
      HitsAreLeftmostChain(m, n, h.end);
      HitsStep(m, n, from, h);
      assert Hits(m, n, from)[1..] == Hits(m, n, h.end);
    }
  }

  /** Every match in the chain is the one the matcher reports at its start. */
  lemma {:induction false} HitsAreMatches(m: Matcher, n: nat, from: nat)
    requires from <= n && Advances(m, n)
    ensures forall h :: h in Hits(m, n, from) ==> m(h.start) == Some(h)
    decreases n - from
  {
    var o := Leftmost(m, n, from);
    if o.Some? {
      HitsStep(m, n, from, o.value);
      HitsAreMatches(m, n, o.value.end);
    }
  }

  /** A single replacement: the new text and the number of substitutions made. */
  function ReplaceFirst(m: Matcher, render: Hit -> string, t: string): (res: (string, nat))
    requires Advances(m, |t|)
    ensures res.1 <= 1
    ensures res.1 == 0 <==> forall p: nat :: m(p).None?
    ensures res.1 == 0 ==> res.0 == t
    ensures res.1 == 1 ==>
      exists p: nat :: m(p).Some? && (forall q: nat :: q < p ==> m(q).None?)
        && var h := m(p).value;
           res.0 == t[..p] + render(h) + t[h.end..]
  {
    match Leftmost(m, |t|, 0)
    case None => (t, 0)
    case Some(h) =>
      assert m(h.start).Some?;
      (t[..h.start] + render(h) + t[h.end..], 1)
  }

  // ---------------------------------------------------------------- lemmas

  /** One step of the global replacement (kept apart so callers reason about it abstractly). */
  lemma ReplaceFromStep(m: Matcher, render: Hit -> string, t: string, from: nat, h: Hit)
    requires from <= |t| && Advances(m, |t|)
    requires Leftmost(m, |t|, from) == Some(h)
    ensures ReplaceFrom(m, render, t, from)
      == t[from..h.start] + (render(h) + ReplaceFrom(m, render, t, h.end))
  {
  }

  /** One step of the chain of matches. */
  lemma HitsStep(m: Matcher, n: nat, from: nat, h: Hit)
    requires from <= n && Advances(m, n)
    requires Leftmost(m, n, from) == Some(h)
    ensures Hits(m, n, from) == [h] + Hits(m, n, h.end)
  {
  }

  /** The first position from `from` on where `m` reports a match is the leftmost match. */
  lemma {:induction false} LeftmostIs(m: Matcher, n: nat, from: nat, p: nat)
    requires from <= p && from <= n && Advances(m, n)
    requires m(p).Some? && forall q: nat :: from <= q < p ==> m(q).None?
    ensures Leftmost(m, n, from) == m(p)
    decreases p - from
  {
    if from < p {
      LeftmostIs(m, n, from + 1, p);
    }
  }

  /** The first position from `from` on where `m` reports a match is where the replacement happens. */
  lemma ReplaceFromFirst(m: Matcher, render: Hit -> string, t: string, from: nat, p: nat)
    requires from <= p && from <= |t| && Advances(m, |t|)
    requires m(p).Some? && forall q: nat :: from <= q < p ==> m(q).None?
    ensures ReplaceFrom(m, render, t, from)
      == t[from..p] + (render(m(p).value) + ReplaceFrom(m, render, t, m(p).value.end))
  {
    LeftmostIs(m, |t|, from, p);
    ReplaceFromStep(m, render, t, from, m(p).value);
  }

  /** A single replacement happens at the first position where `m` reports a match. */
  lemma ReplaceFirstAt(m: Matcher, render: Hit -> string, t: string, p: nat)
    requires Advances(m, |t|) && m(p).Some? && forall q: nat :: q < p ==> m(q).None?
    ensures ReplaceFirst(m, render, t) == (t[..p] + render(m(p).value) + t[m(p).value.end..], 1)
  {
    LeftmostIs(m, |t|, 0, p);
  }

  /** With no match at or after `from`, a global replacement changes nothing. */
  lemma NoMatchUnchanged(m: Matcher, render: Hit -> string, t: string, from: nat)
    requires from <= |t| && Advances(m, |t|)
    requires forall p: nat :: from <= p ==> m(p).None?
    ensures ReplaceFrom(m, render, t, from) == t[from..]
  {
  }

  /** The match already reads as its own replacement. */
  predicate Settled(render: Hit -> string, t: string, h: Hit) {
    h.start <= h.end <= |t| && render(h) == t[h.start..h.end]
  }

  /**
   * A global replacement is the identity when every match it visits already
   * reads as its own replacement.
   */
  lemma {:induction false} FixedPoint(m: Matcher, render: Hit -> string, t: string, from: nat)
    requires from <= |t| && Advances(m, |t|)
    requires forall h :: h in Hits(m, |t|, from) ==> Settled(render, t, h)
    ensures ReplaceFrom(m, render, t, from) == t[from..]
    decreases |t| - from
  {
    var o := Leftmost(m, |t|, from);
    if o.Some? {
      var h := o.value;
      HitsStep(m, |t|, from, h);
      var rest := Hits(m, |t|, h.end);
      assert Settled(render, t, h);
      assert forall h' :: h' in rest ==> Settled(render, t, h');
      FixedPoint(m, render, t, h.end);
      ReplaceFromStep(m, render, t, from, h);
      Reassemble(t, from, h.start, h.end, render(h), ReplaceFrom(m, render, t, h.end));
    }
  }

  /** Everything before the first match is kept, and nothing at all when there is none. */
  lemma {:induction false} PrefixKept(m: Matcher, render: Hit -> string, t: string, from: nat, p: nat)
    requires from <= p <= |t| && Advances(m, |t|)
    requires forall q: nat :: from <= q < p ==> m(q).None?
    ensures |ReplaceFrom(m, render, t, from)| >= p - from
    ensures ReplaceFrom(m, render, t, from)[..p - from] == t[from..p]
  {
    var o := Leftmost(m, |t|, from);
    if o.None? {
      NoMatchUnchanged(m, render, t, from);
      PrefixOfSlice(t, from, p, |t|, "");
    } else {
      var h := o.value;
      assert p <= h.start;
      ReplaceFromStep(m, render, t, from, h);
      PrefixOfSlice(t, from, p, h.start, render(h) + ReplaceFrom(m, render, t, h.end));
    }
  }

  /** A global replacement whose only match is `h` splices its replacement in place of `h`. */
  lemma SingleMatch(m: Matcher, render: Hit -> string, t: string, from: nat, h: Hit)
    requires from <= |t| && Advances(m, |t|)
    requires Leftmost(m, |t|, from) == Some(h)
    requires forall p: nat :: h.end <= p ==> m(p).None?
    ensures ReplaceFrom(m, render, t, from) == t[from..h.start] + render(h) + t[h.end..]
  {
    NoMatchUnchanged(m, render, t, h.end);
    ReplaceFromStep(m, render, t, from, h);
  }

  // ------------------------------------------ the replacement as a rebuild

  /** `hs` are non-overlapping spans of a text of length `n`, left to right, from `from` on. */
  ghost predicate Ordered(hs: seq<Hit>, from: nat, n: nat)
    decreases |hs|
  {
    if hs == [] then from <= n
    else from <= hs[0].start <= hs[0].end <= n && Ordered(hs[1..], hs[0].end, n)
  }

  /** The text from `from` on with each span of `hs` replaced by its rendering and the rest copied. */
  function Rebuild(render: Hit -> string, t: string, hs: seq<Hit>, from: nat): string
    requires Ordered(hs, from, |t|)
    decreases |hs|
  {
    if hs == [] then t[from..]
    else t[from..hs[0].start] + render(hs[0]) + Rebuild(render, t, hs[1..], hs[0].end)
  }

  /** A leftmost chain of matches is ordered. */
  lemma {:induction false} ChainOrdered(m: Matcher, n: nat, hs: seq<Hit>, from: nat)
    requires from <= n && Advances(m, n) && LeftmostChain(m, hs, from)
    ensures Ordered(hs, from, n)
    decreases |hs|
  {
    if hs != [] {
      ChainOrdered(m, n, hs[1..], hs[0].end);
    }
  }

  /** There is only one leftmost chain from a given point: the one the global replacement visits. */
  lemma {:induction false} ChainUnique(m: Matcher, n: nat, hs: seq<Hit>, from: nat)
    requires from <= n && Advances(m, n) && LeftmostChain(m, hs, from)
    ensures hs == Hits(m, n, from)
    decreases n - from
  {
    var o := Leftmost(m, n, from);
    if hs == [] {
      assert o.None?;
    } else {
      var h := hs[0];
      assert m(h.start) == Some(h);
      ChainOrdered(m, n, hs, from);
      assert o == Some(h);
      HitsStep(m, n, from, h);
      ChainUnique(m, n, hs[1..], h.end);
      assert hs == [h] + hs[1..];
    }
  }

  /**
   * A global replacement copies the text and replaces the spans of the
   * leftmost chain of matches, each by its rendering.
   */
  lemma {:induction false} ReplaceFromRebuilds(m: Matcher, render: Hit -> string, t: string, from: nat, hs: seq<Hit>)
    requires from <= |t| && Advances(m, |t|) && LeftmostChain(m, hs, from)
    ensures Ordered(hs, from, |t|)
    ensures ReplaceFrom(m, render, t, from) == Rebuild(render, t, hs, from)
    decreases |t| - from
  {
    ChainOrdered(m, |t|, hs, from);
    ChainUnique(m, |t|, hs, from);
    var o := Leftmost(m, |t|, from);
    if o.None? {
      NoMatchUnchanged(m, render, t, from);
    } else {
      var h := o.value;
      HitsStep(m, |t|, from, h);
      ReplaceFromStep(m, render, t, from, h);
      HitsAreLeftmostChain(m, |t|, h.end);
      ReplaceFromRebuilds(m, render, t, h.end, hs[1..]);
    }
  }

  // ---------------------------------------------- matchers that mirror each other

  /** `h2` is `h1` moved by `delta` positions. */
  predicate Moved(h1: Hit, h2: Hit, delta: int) {
    && h2.start == h1.start + delta && h2.end == h1.end + delta
    && |h2.cuts| == |h1.cuts|
    && forall k :: 0 <= k < |h1.cuts| ==> h2.cuts[k] == h1.cuts[k] + delta
  }

  predicate OptMoved(o1: Option<Hit>, o2: Option<Hit>, delta: int) {
    o1.None? == o2.None? && (o1.Some? ==> Moved(o1.value, o2.value, delta))
  }

  /**
   * From `b1` on, `m1` and `r1` report and render what `m2` and `r2` do from
   * `b2` on: the same matches, moved, replaced by the same text.
   */
  ghost predicate Mirrors(m1: Matcher, r1: Hit -> string, b1: nat, m2: Matcher, r2: Hit -> string, b2: nat) {
    forall x: nat :: b1 <= x ==>
      && OptMoved(m1(x), m2(x - b1 + b2), b2 - b1)
      && (m1(x).Some? ==> r1(m1(x).value) == r2(m2(x - b1 + b2).value))
  }
  lemma MirrorsIntro(m1: Matcher, r1: Hit -> string, b1: nat, m2: Matcher, r2: Hit -> string, b2: nat)
    requires forall x: nat :: b1 <= x ==>
      && OptMoved(m1(x), m2(x - b1 + b2), b2 - b1)
      && (m1(x).Some? ==> r1(m1(x).value) == r2(m2(x - b1 + b2).value))
    ensures Mirrors(m1, r1, b1, m2, r2, b2)
  {
  }


  lemma {:induction false} LeftmostMirrored(m1: Matcher, r1: Hit -> string, n1: nat, b1: nat, f1: nat,
                                            m2: Matcher, r2: Hit -> string, n2: nat, b2: nat, f2: nat)
    requires Advances(m1, n1) && Advances(m2, n2) && Mirrors(m1, r1, b1, m2, r2, b2)
    requires b1 <= f1 <= n1 && f2 == f1 - b1 + b2 && n2 == n1 - b1 + b2
    ensures OptMoved(Leftmost(m1, n1, f1), Leftmost(m2, n2, f2), b2 - b1)
    decreases n1 - f1
  {
    if f1 < n1 && m1(f1).None? {
      LeftmostMirrored(m1, r1, n1, b1, f1 + 1, m2, r2, n2, b2, f2 + 1);
    }
  }

  /** Texts with equal suffixes and mirroring matchers are rewritten alike from corresponding points on. */
  lemma {:induction false} ReplaceFromMirrored(m1: Matcher, r1: Hit -> string, t1: string, b1: nat, f1: nat,
                                               m2: Matcher, r2: Hit -> string, t2: string, b2: nat, f2: nat)
    requires Advances(m1, |t1|) && Advances(m2, |t2|) && Mirrors(m1, r1, b1, m2, r2, b2)
    requires SameSuffix(t1, b1, t2, b2) && b1 <= f1 <= |t1| && f2 == f1 - b1 + b2
    ensures ReplaceFrom(m1, r1, t1, f1) == ReplaceFrom(m2, r2, t2, f2)
    decreases |t1| - f1
  {
    SuffixFrom(t1, b1, t2, b2, f1, |t1|);
    LeftmostMirrored(m1, r1, |t1|, b1, f1, m2, r2, |t2|, b2, f2);
    var o1 := Leftmost(m1, |t1|, f1);
    var o2 := Leftmost(m2, |t2|, f2);
    if o1.None? {
      assert ReplaceFrom(m1, r1, t1, f1) == t1[f1..];
      assert ReplaceFrom(m2, r2, t2, f2) == t2[f2..];
    } else {
      var h1, h2 := o1.value, o2.value;
      assert m1(h1.start) == o1 && m2(h1.start - b1 + b2) == o2;
      assert r1(h1) == r2(h2);
      SuffixFrom(t1, b1, t2, b2, f1, h1.start);
      ReplaceFromMirrored(m1, r1, t1, b1, h1.end, m2, r2, t2, b2, h2.end);
      ReplaceFromStep(m1, r1, t1, f1, h1);
      ReplaceFromStep(m2, r2, t2, f2, h2);
    }
  }

}

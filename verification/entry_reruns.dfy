/**
 * One entry of update-coordinates.ts run a second time on its own output:
 * the latitude pass, then the longitude pass. Each pass alone is idempotent
 * (CoordinateReruns). What is left is that the longitude pass does not undo
 * the latitude pass. The proof goes through a local form of "settled":
 * every match of a pass, wherever it starts, already holds the pass's value.
 * A text settled in that sense is left alone by the pass; a pass leaves its
 * own output settled; and a pass for another key keeps the text settled,
 * because it only rewrites number runs that follow its own key.
 */
module EntryReruns {
  import opened Common
  import opened Text
  import opened Engine
  import opened Patterns
  import opened Rewrite
  import opened Spans
  import opened Locality
  import opened CoordinateReruns
  import opened Scripts

  // ------------------------------------------------ characters of a window

  /** The characters of a field key: letters other than `i`, then the colon. */
  lemma KeyChars(key: string, s: string, k: nat)
    requires KeyWord(key) && OccursAt(s, k, key)
    ensures s[k + |key| - 1] == ':'
    ensures forall c :: k <= c < k + |key| - 1 ==> 'a' <= s[c] <= 'z' && s[c] != 'i'
  {
    OccursWithin(s, k, key, 0, |key|);
  }

  /** A coordinate match starts with the `i` of `id:`. */
  lemma MatchStartsWithI(id: string, key: string, t: string, q: nat)
    ensures CoordinateMatch(id, key, t, q).Some? ==> q < |t| && t[q] == 'i'
  {
    OccursAtIndex(t, q, "id:", 0);
  }

  /** No character from a key to the number after it is an `i`. */
  lemma NoIInWindow(d: Dialect, key: string, s: string, k: nat, w: nat, q: nat)
    requires KeyWord(key) && NumberAfter(d, key, s, k) == Some(w)
    ensures k <= q <= w ==> s[q] != 'i'
  {
    KeyChars(key, s, k);
  }

  /** A quote is not one of the letters of a key. */
  lemma QuoteOutsideKey(key: string, s: string, k: nat, j: nat)
    requires KeyWord(key) && OccursAt(s, k, key) && j < |s| && IsQuote(s[j])
    ensures !(k <= j < k + |key| - 1)
  {
    KeyChars(key, s, k);
  }

  /** The only colon of a quoted anchor is the one of `id:`, for an id without a colon. */
  lemma ColonInAnchor(d: Dialect, id: string, s: string, q: nat, c: nat)
    requires Lacks(id, ':') && AnchorEnd(Quoted(d, id), s, q).Some?
    ensures q <= c < AnchorEnd(Quoted(d, id), s, q).value && s[c] == ':' ==> c == q + 2
  {
    var x := QuotedAnchorParts(d, id, s, q);
    OccursWithin(s, q, "id:", 0, 3);
  }

  /**
   * An anchor that starts before the number of a key window ends at or
   * before the key: its closing quote cannot fall inside the key, and the
   * key's colon cannot fall inside the anchor.
   */
  lemma AnchorBeforeWindow(d: Dialect, id: string, key: string, s: string, q: nat, k: nat, w: nat)
    requires Lacks(id, ':') && KeyWord(key) && NumberAfter(d, key, s, k) == Some(w) && q < w
    requires AnchorEnd(Quoted(d, id), s, q).Some?
    ensures AnchorEnd(Quoted(d, id), s, q).value <= k
  {
    var a := AnchorEnd(Quoted(d, id), s, q).value;
    var c: nat := k + |key| - 1;
    OccursAtIndex(s, q, "id:", 0);
    KeyChars(key, s, k);
    QuoteOutsideKey(key, s, k, a - 1);
    NoIInWindow(d, key, s, k, w, q);
    ColonInAnchor(d, id, s, q, c);
  }

  // -------------------------------------------------------- settled matches

  /** A match of a coordinate pass whose number run is already `value`. */
  predicate HoldsValue(t: string, h: Hit, value: string) {
    |h.cuts| == 1 && h.cuts[0] <= h.end <= |t| && t[h.cuts[0]..h.end] == value
  }

  /** Every match of the pass, wherever it starts, already holds the pass's value. */
  ghost predicate SettledEverywhere(id: string, key: string, value: string, t: string) {
    forall q: nat :: CoordinateMatch(id, key, t, q).Some? ==> HoldsValue(t, CoordinateMatch(id, key, t, q).value, value)
  }

  /** A pass leaves a text alone when every match of it already holds its value. */
  lemma SettledIsFixed(id: string, key: string, value: string, t: string)
    requires SettledEverywhere(id, key, value, t)
    ensures ReplaceAll(Coordinate(id, key, value), t) == t
  {
    var r := Coordinate(id, key, value);
    var m := Matches(r, t);
    MatchesAdvance(r, t);
    HitsAreMatches(m, |t|, 0);
    forall h | h in Hits(m, |t|, 0)
      ensures Settled(Renders(r, t), t, h)
    {
      assert m(h.start) == Some(h);
      HitSettled(id, key, value, t, h);
    }
    FixedPoint(m, Renders(r, t), t, 0);
  }

  lemma HitSettled(id: string, key: string, value: string, t: string, h: Hit)
    requires SettledEverywhere(id, key, value, t) && CoordinateMatch(id, key, t, h.start) == Some(h)
    ensures Settled(Renders(Coordinate(id, key, value), t), t, h)
  {
    assert HoldsValue(t, h, value);
    assert t[h.start..h.end] == t[h.start..h.cuts[0]] + t[h.cuts[0]..h.end];
  }

  /** A text with no match of the pass is settled. */
  lemma NoMatchSettled(id: string, key: string, value: string, t: string)
    requires forall q: nat :: Matches(Coordinate(id, key, value), t)(q).None?
    ensures SettledEverywhere(id, key, value, t)
  {
    forall q: nat
      ensures CoordinateMatch(id, key, t, q).None?
    {
      assert Matches(Coordinate(id, key, value), t)(q).None?;
    }
  }

  /** A suffix of a settled text is settled. */
  lemma SettledSuffix(id: string, key: string, value: string, t: string, i: nat)
    requires i <= |t| && SettledEverywhere(id, key, value, t)
    ensures SettledEverywhere(id, key, value, t[i..])
  {
    var u := t[i..];
    forall q: nat | CoordinateMatch(id, key, u, q).Some?
      ensures HoldsValue(u, CoordinateMatch(id, key, u, q).value, value)
    {
      SettledSuffixAt(id, key, value, t, i, q);
    }
  }

  lemma SettledSuffixAt(id: string, key: string, value: string, t: string, i: nat, q: nat)
    requires i <= |t| && SettledEverywhere(id, key, value, t)
    requires CoordinateMatch(id, key, t[i..], q).Some?
    ensures HoldsValue(t[i..], CoordinateMatch(id, key, t[i..], q).value, value)
  {
    var u := t[i..];
    if q > |u| {
      CoordinateBeyond(id, key, value, u, q);
    }
    SuffixOfItself(t, i);
    SuffixAt(t, i, u, 0, q + i);
    SameSuffixSymmetric(t, q + i, u, q);
    HoldsMoved(id, key, value, u, q, t, q + i);
  }

  /** A match at corresponding places of equal suffixes holds a value on one side exactly when it does on the other. */
  lemma HoldsMoved(id: string, key: string, value: string, t1: string, x1: nat, t2: string, x2: nat)
    requires SameSuffix(t1, x1, t2, x2) && CoordinateMatch(id, key, t1, x1).Some?
    ensures CoordinateMatch(id, key, t2, x2).Some?
    ensures HoldsValue(t1, CoordinateMatch(id, key, t1, x1).value, value)
        <==> HoldsValue(t2, CoordinateMatch(id, key, t2, x2).value, value)
  {
    var h1 := CoordinateMatch(id, key, t1, x1).value;
    var c1, e1 := h1.cuts[0], h1.end;
    CoordinateSuffix(id, key, t1, x1, t2, x2);
    var h2 := CoordinateMatch(id, key, t2, x2).value;
    assert h2.cuts[0] == c1 - x1 + x2 && h2.end == e1 - x1 + x2;
    SliceMoved(t1, x1, t2, x2, c1, e1, h2.cuts[0], h2.end);
    SameRunHolds(t1, h1, t2, h2, value);
  }

  lemma SliceMoved(t1: string, x1: nat, t2: string, x2: nat, c1: nat, e1: nat, c2: nat, e2: nat)
    requires SameSuffix(t1, x1, t2, x2) && x1 <= c1 <= e1 <= |t1|
    requires c2 == c1 - x1 + x2 && e2 == e1 - x1 + x2
    ensures e2 <= |t2| && t1[c1..e1] == t2[c2..e2]
  {
    SuffixFrom(t1, x1, t2, x2, c1, e1);
  }

  lemma SameRunHolds(t1: string, h1: Hit, t2: string, h2: Hit, value: string)
    requires |h1.cuts| == 1 && |h2.cuts| == 1
    requires h1.cuts[0] <= h1.end <= |t1| && h2.cuts[0] <= h2.end <= |t2|
    requires t1[h1.cuts[0]..h1.end] == t2[h2.cuts[0]..h2.end]
    ensures HoldsValue(t1, h1, value) <==> HoldsValue(t2, h2, value)
  {
  }

  /** A text whose suffix from `f` on is a settled text is settled from `f` on. */
  lemma SettledAfter(id: string, key: string, value: string, o: string, f: nat, s: string, q: nat)
    requires f <= q && f <= |o| && o[f..] == s && SettledEverywhere(id, key, value, s)
    requires CoordinateMatch(id, key, o, q).Some?
    ensures HoldsValue(o, CoordinateMatch(id, key, o, q).value, value)
  {
    if q > |o| {
      CoordinateBeyond(id, key, value, o, q);
    }
    SameSuffixIsEquality(o, f, s, 0);
    assert s[0..] == s;
    SuffixAt(o, f, s, 0, q);
    HoldsMoved(id, key, value, o, q, s, q - f);
  }

  /** No match starts inside a number run. */
  lemma NoneInsideNumber(id: string, key: string, o: string, v: nat, q: nat)
    requires v <= |o| && v <= q < NumberEnd(o, v)
    ensures CoordinateMatch(id, key, o, q).None?
  {
    MatchStartsWithI(id, key, o, q);
  }

  // ------------------------------------------------ a pass settles its output

  /**
   * A match that starts between the first match of a pass and its number
   * finds the same key and the same number in the output: its anchor ends
   * at or before that key, and no key window lies in between.
   */
  lemma InnerMatchSame(id: string, key: string, o: string, p: nat, q: nat)
    requires Lacks(id, ':') && KeyWord(key)
    requires CoordinateMatch(id, key, o, p).Some? && p <= q < CoordinateMatch(id, key, o, p).value.cuts[0]
    requires CoordinateMatch(id, key, o, q).Some?
    ensures CoordinateMatch(id, key, o, q) == Some(CoordinateMatch(id, key, o, p).value.(start := q))
  {
    var anchor := Quoted(JavaScript, id);
    var a, k := CoordinateParts(id, key, o, p);
    var v := CoordinateMatch(id, key, o, p).value.cuts[0];
    var aq := AnchorEnd(anchor, o, q).value;
    if p < q {
      OccursAtIndex(o, q, "id:", 0);
      AnchorsApart(JavaScript, id, o, p, q);
    }
    AnchorBeforeWindow(JavaScript, id, key, o, q, k, v);
    FirstNumberKeyIs(JavaScript, key, o, aq, k);
    CoordinateMatchFrom(id, key, o, q, aq, k, v);
  }

  /** Where the pass finds no match, no coordinate match starts. */
  lemma NoneBeforeFirst(id: string, key: string, value: string, o: string, p: nat)
    requires forall q: nat :: q < p ==> Matches(Coordinate(id, key, value), o)(q).None?
    ensures forall q: nat :: q < p ==> CoordinateMatch(id, key, o, q).None?
  {
    forall q: nat | q < p
      ensures CoordinateMatch(id, key, o, q).None?
    {
      assert Matches(Coordinate(id, key, value), o)(q).None?;
    }
  }

  /**
   * The output of a pass whose first match is at `p`: kept up to that match's
   * number, the value, then a settled rest. Every match of the output holds
   * the value.
   */
  lemma FirstMatchSettled(id: string, key: string, value: string, t: string, p: nat, s: string, o: string)
    requires Lacks(id, ':') && KeyWord(key) && NumberText(value)
    requires Matches(Coordinate(id, key, value), t)(p).Some?
    requires forall q: nat :: q < p ==> Matches(Coordinate(id, key, value), t)(q).None?
    requires s == [] || !IsNumberChar(s[0])
    requires SettledEverywhere(id, key, value, s)
    requires o == t[..Matches(Coordinate(id, key, value), t)(p).value.cuts[0]] + value + s
    ensures SettledEverywhere(id, key, value, o)
  {
    var r := Coordinate(id, key, value);
    var v := Matches(r, t)(p).value.cuts[0];
    var f := v + |value|;
    ValueWritten(t, v, value, s, o);
    CoordinateFirstKept(id, key, value, t, p, o);
    assert o[f..] == s;
    assert o[v..f] == value;
    NoneBeforeFirst(id, key, value, o, p);
    forall q: nat | p <= q && CoordinateMatch(id, key, o, q).Some?
      ensures HoldsValue(o, CoordinateMatch(id, key, o, q).value, value)
    {
      if f <= q {
        SettledAfter(id, key, value, o, f, s, q);
      } else if v <= q {
        NoneInsideNumber(id, key, o, v, q);
      } else {
        InnerMatchSame(id, key, o, p, q);
      }
    }
  }

  /**
   * After one pass every match of that pass holds its value, for an id
   * without a colon, a key like `lat:` and a number-run value.
   */
  lemma {:induction false} PassSettles(id: string, key: string, value: string, t: string)
    requires Lacks(id, ':') && KeyWord(key) && NumberText(value)
    ensures SettledEverywhere(id, key, value, ReplaceAll(Coordinate(id, key, value), t))
    decreases |t|
  {
    var r := Coordinate(id, key, value);
    var m := Matches(r, t);
    MatchesAdvance(r, t);
    match Leftmost(m, |t|, 0)
    case None =>
      NoMatchUnchanged(m, Renders(r, t), t, 0);
      NoMatchSettled(id, key, value, t);
    case Some(h) =>
      var p := h.start;
      var a, k := CoordinateParts(id, key, t, p);
      var u := t[h.end..];
      CoordinateFirstStep(id, key, value, t, p);
      PassSettles(id, key, value, u);
      CoordinateHead(id, key, value, u);
      FirstMatchSettled(id, key, value, t, p, ReplaceAll(r, u), ReplaceAll(r, t));
  }

  // ------------------------------------------- a pass for another key

  /** Between a key and its number there is no number character. */
  lemma WindowChars(d: Dialect, key: string, s: string, k: nat, w: nat, c: nat)
    requires KeyWord(key) && NumberAfter(d, key, s, k) == Some(w) && k <= c < w
    ensures !IsNumberChar(s[c])
  {
    KeyChars(key, s, k);
  }

  /** A key window that starts at or before a number character reaches its number no later. */
  lemma WindowBeforeNumber(d: Dialect, key: string, s: string, j: nat, w: nat)
    requires KeyWord(key) && NumberAfter(d, key, s, j).Some? && j <= w < |s| && IsNumberChar(s[w])
    ensures NumberAfter(d, key, s, j).value <= w
  {
    var n := NumberAfter(d, key, s, j).value;
    if w < n {
      WindowChars(d, key, s, j, n, w);
    }
  }

  /** Two key windows of the same length that reach the same number are the same window. */
  lemma SameNumberSameKey(d: Dialect, k1: string, k2: string, s: string, j1: nat, j2: nat, n: nat)
    requires KeyWord(k1) && KeyWord(k2) && |k1| == |k2|
    requires NumberAfter(d, k1, s, j1) == Some(n) && NumberAfter(d, k2, s, j2) == Some(n)
    ensures j1 == j2 && k1 == k2
  {
    KeyChars(k1, s, j1);
    KeyChars(k2, s, j2);
    if j1 == j2 {
      assert s[j1..j1 + |k1|] == k1 && s[j2..j2 + |k2|] == k2;
    }
  }

  /** A key window whose characters are kept, followed by a number character, is kept. */
  lemma WindowKept(d: Dialect, key: string, x: string, o: string, k: nat, w: nat)
    requires NumberAfter(d, key, x, k) == Some(w) && Agree(x, 0, o, 0, w)
    requires w < |o| && IsNumberChar(o[w])
    ensures NumberAfter(d, key, o, k) == Some(w)
  {
    AgreeWithin(x, 0, o, 0, w, k, |key|);
    OccursAgree(x, k, o, k, |key|, key);
    forall c | k + |key| <= c < w
      ensures IsSpace(d, o[c])
    {
      assert o[c] == x[c];
    }
    SkipSpacesIs(d, o, k + |key|, w);
  }

  /**
   * A window of one key that starts before the number of a window of a
   * second key of the same length reaches its number before the second
   * key, and is the same window in a text that agrees up to that number.
   */
  lemma WindowCarries(k1: string, k2: string, t1: string, t2: string, kk: nat, w: nat, j: nat)
    requires KeyWord(k1) && KeyWord(k2) && k1 != k2 && |k1| == |k2|
    requires NumberAfter(JavaScript, k2, t1, kk) == Some(w) && Agree(t1, 0, t2, 0, w)
    requires j < w && NumberAfter(JavaScript, k1, t1, j).Some?
    ensures NumberAfter(JavaScript, k1, t1, j).value < kk
    ensures NumberAfter(JavaScript, k1, t2, j) == NumberAfter(JavaScript, k1, t1, j)
  {
    var n := NumberAfter(JavaScript, k1, t1, j).value;
    WindowBeforeNumber(JavaScript, k1, t1, j, w);
    if n == w {
      SameNumberSameKey(JavaScript, k1, k2, t1, j, kk, w);
    } else if kk <= n {
      WindowChars(JavaScript, k2, t1, kk, w, n);
    }
    AgreeWithin(t1, 0, t2, 0, w, j, w - j);
    NumberAfterAgree(JavaScript, k1, t1, j, t2, j, w - j);
  }

  /** No key window starts inside a number run. */
  lemma NoWindowInNumber(d: Dialect, key: string, t: string, w: nat, e: nat, j: nat)
    requires KeyWord(key) && e <= |t| && w <= j < e
    requires forall c :: w <= c < e ==> IsNumberChar(t[c])
    ensures NumberAfter(d, key, t, j).None?
  {
    OccursAtIndex(t, j, key, 0);
  }

  /** The text of the number run after the nearest key window at or after `a`. */
  function KeyRun(key: string, t: string, a: nat): (r: Option<string>)
    requires a <= |t|
    ensures r.Some? <==> FirstNumberKey(JavaScript, key, t, a).Some?
    ensures r.Some? ==> NumberText(r.value)
  {
    match CoordinateTail(key, t, a)
    case None => None
    case Some((v, e)) => Some(t[v..e])
  }

  /** A match holds a value exactly when the run after its anchor is that value. */
  lemma MatchRun(id: string, key: string, value: string, t: string, q: nat)
    requires AnchorEnd(Quoted(JavaScript, id), t, q).Some?
    ensures var a := AnchorEnd(Quoted(JavaScript, id), t, q).value;
      && (CoordinateMatch(id, key, t, q).Some? <==> KeyRun(key, t, a).Some?)
      && (CoordinateMatch(id, key, t, q).Some? ==>
           (HoldsValue(t, CoordinateMatch(id, key, t, q).value, value) <==> KeyRun(key, t, a) == Some(value)))
  {
    CoordinateMatchIs(id, key, t, q);
  }

  /** The run after a key depends only on the text from where the search starts. */
  lemma KeyRunSuffix(key: string, t1: string, a1: nat, t2: string, a2: nat)
    requires SameSuffix(t1, a1, t2, a2)
    ensures KeyRun(key, t1, a1) == KeyRun(key, t2, a2)
  {
    CoordinateTailSuffix(key, t1, a1, t2, a2);
    var c1 := CoordinateTail(key, t1, a1);
    if c1.Some? {
      SuffixFrom(t1, a1, t2, a2, c1.value.0, c1.value.1);
    }
  }

  /** Searching from `a` or from `b` finds the same key when no window starts in between. */
  lemma {:induction false} FirstNumberKeySkip(key: string, t: string, a: nat, b: nat)
    requires a <= b <= |t|
    requires forall j :: a <= j < b ==> NumberAfter(JavaScript, key, t, j).None?
    ensures FirstNumberKey(JavaScript, key, t, a) == FirstNumberKey(JavaScript, key, t, b)
    decreases b - a
  {
    if a < b {
      FirstNumberKeySkip(key, t, a + 1, b);
    }
  }

  lemma KeyRunSkip(key: string, t: string, a: nat, b: nat)
    requires a <= b <= |t|
    requires forall j :: a <= j < b ==> NumberAfter(JavaScript, key, t, j).None?
    ensures KeyRun(key, t, a) == KeyRun(key, t, b)
  {
    FirstNumberKeySkip(key, t, a, b);
  }

  /** A window of the first key absent before the other key's number stays absent across the rewrite. */
  lemma NoWindowCarried(k1: string, k2: string, x: string, o: string, kk: nat, w: nat, i: nat)
    requires KeyWord(k1) && KeyWord(k2) && k1 != k2 && |k1| == |k2|
    requires NumberAfter(JavaScript, k2, o, kk) == Some(w) && Agree(o, 0, x, 0, w)
    requires i < w && NumberAfter(JavaScript, k1, x, i).None?
    ensures NumberAfter(JavaScript, k1, o, i).None?
  {
    if NumberAfter(JavaScript, k1, o, i).Some? {
      WindowCarries(k1, k2, o, x, kk, w, i);
    }
  }

  lemma NoWindowsCarried(k1: string, k2: string, x: string, o: string, kk: nat, w: nat, a: nat)
    requires KeyWord(k1) && KeyWord(k2) && k1 != k2 && |k1| == |k2|
    requires NumberAfter(JavaScript, k2, o, kk) == Some(w) && Agree(o, 0, x, 0, w)
    requires forall j :: a <= j < w ==> NumberAfter(JavaScript, k1, x, j).None?
    ensures forall j :: a <= j < w ==> NumberAfter(JavaScript, k1, o, j).None?
  {
    forall j | a <= j < w
      ensures NumberAfter(JavaScript, k1, o, j).None?
    {
      NoWindowCarried(k1, k2, x, o, kk, w, j);
    }
  }

  /** The run after a found key, read off the text. */
  lemma KeyRunIs(key: string, t: string, a: nat, j: nat)
    requires a <= |t| && FirstNumberKey(JavaScript, key, t, a) == Some(j)
    ensures var n := NumberAfter(JavaScript, key, t, j).value;
      KeyRun(key, t, a) == Some(t[n..NumberEnd(t, n)])
  {
  }

  /** A number run that starts before the other key ends before it, and reads the same across the rewrite. */
  lemma RunKept(k2: string, x: string, o: string, kk: nat, w: nat, n: nat)
    requires KeyWord(k2) && NumberAfter(JavaScript, k2, x, kk) == Some(w)
    requires Agree(x, 0, o, 0, w) && n < kk
    ensures NumberEnd(x, n) <= kk && NumberEnd(o, n) == NumberEnd(x, n)
    ensures o[n..NumberEnd(x, n)] == x[n..NumberEnd(x, n)]
  {
    var ek := NumberEnd(x, n);
    WindowChars(JavaScript, k2, x, kk, w, kk);
    AgreeWithin(x, 0, o, 0, w, n, w - n);
    NumberEndAgree(x, n, o, n, w - n);
    assert forall c :: n <= c < ek ==> o[c] == x[c];
  }

  /**
   * The nearest window of the first key lies before the other key's number:
   * it is the same window, with the same run, on both sides of the rewrite.
   */
  lemma KeyRunEarly(k1: string, k2: string, x: string, o: string, kk: nat, w: nat, a: nat, j: nat)
    requires KeyWord(k1) && KeyWord(k2) && k1 != k2 && |k1| == |k2|
    requires NumberAfter(JavaScript, k2, x, kk) == Some(w) && NumberAfter(JavaScript, k2, o, kk) == Some(w)
    requires Agree(x, 0, o, 0, w) && Agree(o, 0, x, 0, w)
    requires a <= j < w && FirstNumberKey(JavaScript, k1, x, a) == Some(j)
    ensures KeyRun(k1, o, a) == KeyRun(k1, x, a)
  {
    WindowCarries(k1, k2, x, o, kk, w, j);
    forall i | a <= i < j
      ensures NumberAfter(JavaScript, k1, o, i).None?
    {
      NoWindowCarried(k1, k2, x, o, kk, w, i);
    }
    FirstNumberKeyIs(JavaScript, k1, o, a, j);
    KeyRunIs(k1, x, a, j);
    KeyRunIs(k1, o, a, j);
    RunKept(k2, x, o, kk, w, NumberAfter(JavaScript, k1, x, j).value);
  }

  /** Searching on past a number run finds what a search from its end finds. */
  lemma KeyRunPastNumber(key: string, t: string, a: nat, w: nat, e: nat)
    requires KeyWord(key) && a <= w <= e <= |t|
    requires forall c :: w <= c < e ==> IsNumberChar(t[c])
    requires forall j :: a <= j < w ==> NumberAfter(JavaScript, key, t, j).None?
    ensures KeyRun(key, t, a) == KeyRun(key, t[e..], 0)
  {
    forall j | w <= j < e
      ensures NumberAfter(JavaScript, key, t, j).None?
    {
      NoWindowInNumber(JavaScript, key, t, w, e, j);
    }
    KeyRunSkip(key, t, a, e);
    SuffixOfItself(t, e);
    KeyRunSuffix(key, t, e, t[e..], 0);
  }

  /**
   * No window of the first key lies before the other key's number: both
   * sides search on past the number, into texts whose runs agree.
   */
  lemma KeyRunLate(k1: string, k2: string, x: string, o: string, kk: nat, w: nat, e: nat, f: nat, s: string, a: nat)
    requires KeyWord(k1) && KeyWord(k2) && k1 != k2 && |k1| == |k2|
    requires NumberAfter(JavaScript, k2, o, kk) == Some(w) && Agree(o, 0, x, 0, w)
    requires e == NumberEnd(x, w) && w <= f <= |o| && (forall c :: w <= c < f ==> IsNumberChar(o[c]))
    requires o[f..] == s && KeyRun(k1, s, 0) == KeyRun(k1, x[e..], 0)
    requires a <= w && forall j :: a <= j < w ==> NumberAfter(JavaScript, k1, x, j).None?
    ensures KeyRun(k1, o, a) == KeyRun(k1, x, a)
  {
    NoWindowsCarried(k1, k2, x, o, kk, w, a);
    KeyRunPastNumber(k1, o, a, w, f);
    KeyRunPastNumber(k1, x, a, w, e);
  }

  /**
   * One rewrite of the other key's pass, from any search start up to its
   * number, keeps the run after the first key, given that the rest of the
   * pass keeps it.
   */
  lemma KeyRunStep(k1: string, k2: string, v2: string, x: string, o: string, kk: nat, w: nat, e: nat, s: string, a: nat)
    requires KeyWord(k1) && KeyWord(k2) && k1 != k2 && |k1| == |k2| && NumberText(v2)
    requires NumberAfter(JavaScript, k2, x, kk) == Some(w) && e == NumberEnd(x, w)
    requires s == [] || !IsNumberChar(s[0])
    requires o == x[..w] + v2 + s
    requires KeyRun(k1, s, 0) == KeyRun(k1, x[e..], 0)
    requires a <= w
    ensures KeyRun(k1, o, a) == KeyRun(k1, x, a)
  {
    ValueWritten(x, w, v2, s, o);
    WindowKept(JavaScript, k2, x, o, kk, w);
    var f := w + |v2|;
    assert o[f..] == s;
    var fx := FirstNumberKey(JavaScript, k1, x, a);
    if fx.Some? && fx.value < w {
      KeyRunEarly(k1, k2, x, o, kk, w, a, fx.value);
    } else {
      KeyRunLate(k1, k2, x, o, kk, w, e, f, s, a);
    }
  }

  /**
   * A pass for a second key of the same length keeps the run after the
   * first key that a search from the start finds.
   */
  lemma {:induction false} KeyRunKept(id: string, k1: string, k2: string, v2: string, x: string)
    requires KeyWord(k1) && KeyWord(k2) && k1 != k2 && |k1| == |k2| && NumberText(v2)
    ensures KeyRun(k1, ReplaceAll(Coordinate(id, k2, v2), x), 0) == KeyRun(k1, x, 0)
    decreases |x|
  {
    var r := Coordinate(id, k2, v2);
    var m := Matches(r, x);
    MatchesAdvance(r, x);
    match Leftmost(m, |x|, 0)
    case None =>
      NoMatchUnchanged(m, Renders(r, x), x, 0);
    case Some(h) =>
      var p := h.start;
      var a, kk := CoordinateParts(id, k2, x, p);
      var u := x[h.end..];
      CoordinateFirstStep(id, k2, v2, x, p);
      KeyRunKept(id, k1, k2, v2, u);
      CoordinateHead(id, k2, v2, u);
      KeyRunStep(k1, k2, v2, x, ReplaceAll(r, x), kk, h.cuts[0], h.end, ReplaceAll(r, u), 0);
  }

  /** A match of the first key that starts before the other key's number holds the same run as before the rewrite. */
  lemma EarlyMatchKept(id: string, k1: string, v1: string, k2: string, v2: string, x: string, o: string,
                       kk: nat, w: nat, e: nat, s: string, q: nat)
    requires Lacks(id, ':') && KeyWord(k1) && KeyWord(k2) && k1 != k2 && |k1| == |k2| && NumberText(v2)
    requires NumberAfter(JavaScript, k2, x, kk) == Some(w) && e == NumberEnd(x, w)
    requires s == [] || !IsNumberChar(s[0])
    requires o == x[..w] + v2 + s
    requires KeyRun(k1, s, 0) == KeyRun(k1, x[e..], 0)
    requires SettledEverywhere(id, k1, v1, x)
    requires q < w && CoordinateMatch(id, k1, o, q).Some?
    ensures HoldsValue(o, CoordinateMatch(id, k1, o, q).value, v1)
  {
    var anchor := Quoted(JavaScript, id);
    ValueWritten(x, w, v2, s, o);
    WindowKept(JavaScript, k2, x, o, kk, w);
    CoordinateMatchIs(id, k1, o, q);
    var aq := AnchorEnd(anchor, o, q).value;
    AnchorBeforeWindow(JavaScript, id, k2, o, q, kk, w);
    AgreeWithin(o, 0, x, 0, w, q, aq - q);
    AnchorAgree(anchor, o, q, x, q, aq - q);
    KeyRunStep(k1, k2, v2, x, o, kk, w, e, s, aq);
    MatchRun(id, k1, v1, o, q);
    MatchRun(id, k1, v1, x, q);
    assert HoldsValue(x, CoordinateMatch(id, k1, x, q).value, v1);
  }

  /** One rewrite of the other key's pass keeps a text settled for the first key. */
  lemma OtherStepSettled(id: string, k1: string, v1: string, k2: string, v2: string, x: string, o: string,
                         kk: nat, w: nat, e: nat, s: string)
    requires Lacks(id, ':') && KeyWord(k1) && KeyWord(k2) && k1 != k2 && |k1| == |k2| && NumberText(v2)
    requires NumberAfter(JavaScript, k2, x, kk) == Some(w) && e == NumberEnd(x, w)
    requires s == [] || !IsNumberChar(s[0])
    requires o == x[..w] + v2 + s
    requires KeyRun(k1, s, 0) == KeyRun(k1, x[e..], 0)
    requires SettledEverywhere(id, k1, v1, x) && SettledEverywhere(id, k1, v1, s)
    ensures SettledEverywhere(id, k1, v1, o)
  {
    ValueWritten(x, w, v2, s, o);
    var f := w + |v2|;
    assert o[f..] == s;
    forall q: nat | CoordinateMatch(id, k1, o, q).Some?
      ensures HoldsValue(o, CoordinateMatch(id, k1, o, q).value, v1)
    {
      if f <= q {
        SettledAfter(id, k1, v1, o, f, s, q);
      } else if w <= q {
        NoneInsideNumber(id, k1, o, w, q);
      } else {
        EarlyMatchKept(id, k1, v1, k2, v2, x, o, kk, w, e, s, q);
      }
    }
  }

  /**
   * A pass for a second key of the same length keeps a text settled for the
   * first key: it only rewrites number runs that follow its own key.
   */
  lemma {:induction false} OtherPassKeepsSettled(id: string, k1: string, v1: string, k2: string, v2: string, x: string)
    requires Lacks(id, ':') && KeyWord(k1) && KeyWord(k2) && k1 != k2 && |k1| == |k2| && NumberText(v2)
    requires SettledEverywhere(id, k1, v1, x)
    ensures SettledEverywhere(id, k1, v1, ReplaceAll(Coordinate(id, k2, v2), x))
    decreases |x|
  {
    var r := Coordinate(id, k2, v2);
    var m := Matches(r, x);
    MatchesAdvance(r, x);
    match Leftmost(m, |x|, 0)
    case None =>
      NoMatchUnchanged(m, Renders(r, x), x, 0);
    case Some(h) =>
      var p := h.start;
      var a, kk := CoordinateParts(id, k2, x, p);
      var u := x[h.end..];
      CoordinateFirstStep(id, k2, v2, x, p);
      SettledSuffix(id, k1, v1, x, h.end);
      OtherPassKeepsSettled(id, k1, v1, k2, v2, u);
      KeyRunKept(id, k1, k2, v2, u);
      CoordinateHead(id, k2, v2, u);
      OtherStepSettled(id, k1, v1, k2, v2, x, ReplaceAll(r, x), kk, h.cuts[0], h.end, ReplaceAll(r, u));
  }

  // ------------------------------------------------ the whole entry, twice

  /**
   * update-coordinates.ts for one entry is idempotent: running the latitude
   * pass and then the longitude pass on their own output changes nothing,
   * for an id without a colon and values that are number runs.
   */
  lemma PatchCoordinatesIdempotent(t: string, e: Coordinates)
    requires Lacks(e.id, ':') && NumberText(e.lat) && NumberText(e.lng)
    ensures PatchCoordinates(PatchCoordinates(t, e), e) == PatchCoordinates(t, e)
  {
    assert KeyWord("lat:") && KeyWord("lng:");
    var lat := ReplaceAll(LatPass(e), t);
    var both := ReplaceAll(LngPass(e), lat);
    PassSettles(e.id, "lat:", e.lat, t);
    OtherPassKeepsSettled(e.id, "lat:", e.lat, "lng:", e.lng, lat);
    SettledIsFixed(e.id, "lat:", e.lat, both);
    CoordinatePassIdempotent(e.id, "lng:", e.lng, lat);
  }
}

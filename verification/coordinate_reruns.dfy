/**
 * A pass of update-coordinates.ts run a second time on its own output. The
 * proof follows the pass match by match: the output agrees with the input up
 * to each written number, so the second run finds the same first match, and
 * from the end of that match on it is the pass over a shorter text.
 */
module CoordinateReruns {
  import opened Common
  import opened Text
  import opened Engine
  import opened Patterns
  import opened Rewrite
  import opened Spans
  import opened Locality
  import opened Scripts

  // ---------------------------------------------- the rest of a global pass

  /** A text and its suffix from `i`: the suffix from `i` on is the suffix text from 0 on. */
  lemma SuffixOfItself(t: string, i: nat)
    requires i <= |t|
    ensures SameSuffix(t, i, t[i..], 0)
  {
    SameSuffixIsEquality(t, i, t[i..], 0);
  }

  /** A coordinate pass reports the same matches in a text from `i` on as in its suffix from `i`. */
  lemma CoordinateMirrors(id: string, key: string, value: string, t: string, i: nat)
    requires i <= |t|
    ensures var r := Coordinate(id, key, value);
      Mirrors(Matches(r, t), Renders(r, t), i, Matches(r, t[i..]), Renders(r, t[i..]), 0)
  {
    var r := Coordinate(id, key, value);
    var u := t[i..];
    SuffixOfItself(t, i);
    forall x: nat | i <= x
      ensures OptMoved(Matches(r, t)(x), Matches(r, u)(x - i + 0), 0 - i)
      ensures Matches(r, t)(x).Some? ==> Renders(r, t)(Matches(r, t)(x).value) == Renders(r, u)(Matches(r, u)(x - i + 0).value)
    {
      CoordinateSuffixAnywhere(id, key, value, t, i, u, x);
    }
    MirrorsIntro(Matches(r, t), Renders(r, t), i, Matches(r, u), Renders(r, u), 0);
  }

  lemma CoordinateSuffixAnywhere(id: string, key: string, value: string, t: string, i: nat, u: string, x: nat)
    requires SameSuffix(t, i, u, 0) && i <= x
    ensures var r := Coordinate(id, key, value);
      && OptMoved(Matches(r, t)(x), Matches(r, u)(x - i + 0), 0 - i)
      && (Matches(r, t)(x).Some? ==> Renders(r, t)(Matches(r, t)(x).value) == Renders(r, u)(Matches(r, u)(x - i + 0).value))
  {
    if x <= |t| {
      SuffixAt(t, i, u, 0, x);
      CoordinateSuffix(id, key, t, x, u, x - i);
      var r := Coordinate(id, key, value);
      var o1, o2 := Matches(r, t)(x), Matches(r, u)(x - i + 0);
      assert o1 == CoordinateMatch(id, key, t, x) && o2 == CoordinateMatch(id, key, u, x - i);
      assert OptMoved(o1, o2, 0 - i);
      if o1.Some? {
        CoordinateRenderMoved(r, t, u, o1.value, o2.value);
        assert Renders(r, t)(o1.value) == Renders(r, u)(o2.value);
      }
    } else {
      assert |u| == |t| - i;
      CoordinateBeyond(id, key, value, t, x);
      CoordinateBeyond(id, key, value, u, x - i);
    }
  }

  /** No coordinate match starts past the end of the text. */
  lemma CoordinateBeyond(id: string, key: string, value: string, t: string, x: nat)
    requires x > |t|
    ensures Matches(Coordinate(id, key, value), t)(x).None?
  {
    assert AnchorEnd(Quoted(JavaScript, id), t, x).None?;
  }

  /** Two matches at corresponding places of equal suffixes are rendered alike. */
  lemma CoordinateRenderMoved(r: Rule, t1: string, t2: string, h1: Hit, h2: Hit)
    requires r.Coordinate? && SameSuffix(t1, h1.start, t2, h2.start)
    requires WellFormed(r, t1, h1) && WellFormed(r, t2, h2) && Moved(h1, h2, h2.start - h1.start)
    ensures Renders(r, t1)(h1) == Renders(r, t2)(h2)
  {
    SuffixFrom(t1, h1.start, t2, h2.start, h1.start, h1.cuts[0]);
  }

  /** What a coordinate pass makes of a text from `i` on is what it makes of the suffix from `i`. */
  lemma CoordinatePassFrom(id: string, key: string, value: string, t: string, i: nat)
    requires i <= |t|
    ensures var r := Coordinate(id, key, value);
      Advances(Matches(r, t), |t|) && ReplaceFrom(Matches(r, t), Renders(r, t), t, i) == ReplaceAll(r, t[i..])
  {
    var r := Coordinate(id, key, value);
    var u := t[i..];
    MatchesAdvance(r, t);
    MatchesAdvance(r, u);
    SuffixOfItself(t, i);
    CoordinateMirrors(id, key, value, t, i);
    ReplaceFromMirrored(Matches(r, t), Renders(r, t), t, i, i, Matches(r, u), Renders(r, u), u, 0, 0);
  }

  // ------------------------------------------------------- character classes

  /** A field key such as `lat:`: lower-case letters other than `i`, then a colon. */
  predicate KeyWord(key: string) {
    && |key| >= 3 && key[|key| - 1] == ':'
    && forall k :: 0 <= k < |key| - 1 ==> 'a' <= key[k] <= 'z' && key[k] != 'i'
  }

  /** A non-empty run of `[\d.-]`, as a rendered coordinate is. */
  predicate NumberText(s: string) {
    |s| > 0 && forall k :: 0 <= k < |s| ==> IsNumberChar(s[k])
  }

  /** Two occurrences of a field key never overlap: the colon is only at the end. */
  lemma KeysApart(key: string, s: string, j: nat, k: nat)
    requires KeyWord(key) && j < k && OccursAt(s, j, key) && OccursAt(s, k, key)
    ensures j + |key| <= k
  {
    assert s[j + |key| - 1] == s[j..j + |key|][|key| - 1] == ':';
    forall c | k <= c < k + |key|
      ensures s[c] == key[c - k]
    {
      assert s[c] == s[k..k + |key|][c - k];
    }
  }

  /** A key-and-number window that starts before an occurrence of the key ends before it. */
  lemma NumberBeforeKey(d: Dialect, key: string, s: string, j: nat, k: nat)
    requires KeyWord(key) && j < k && OccursAt(s, k, key) && NumberAfter(d, key, s, j).Some?
    ensures NumberAfter(d, key, s, j).value < k
  {
    KeysApart(key, s, j, k);
    assert s[k] == s[k..k + |key|][0] == key[0];
  }

  /** An anchor `id: '<id>'` that starts before an `id:` ends before it, for an id without a colon. */
  lemma AnchorsApart(d: Dialect, id: string, s: string, q: nat, p: nat)
    requires Lacks(id, ':') && q < p && OccursAt(s, p, "id:")
    requires AnchorEnd(Quoted(d, id), s, q).Some?
    ensures AnchorEnd(Quoted(d, id), s, q).value <= p
  {
    var x := QuotedAnchorParts(d, id, s, q);
    assert s[p] == s[p..p + 3][0] && s[p + 1] == s[p..p + 3][1] && s[p + 2] == s[p..p + 3][2];
    forall c | x + 1 <= c < x + 1 + |id|
      ensures s[c] == id[c - x - 1]
    {
      assert s[c] == s[x + 1..x + 1 + |id|][c - x - 1];
    }
  }

  /** Texts that agree up to `v` agree on every window inside it. */
  lemma PrefixAgree(o: string, t: string, v: nat)
    requires v <= |o| && v <= |t| && o[..v] == t[..v]
    ensures Agree(o, 0, t, 0, v)
  {
    SliceAgree(o, 0, t, 0, v);
  }

  /** A key-and-number window that is absent from the input before the key stays absent when the text agrees up to `v`. */
  lemma NoNearerKey(d: Dialect, key: string, t: string, o: string, k: nat, v: nat, j: nat)
    requires KeyWord(key) && Agree(o, 0, t, 0, v) && j < k && k + |key| <= v
    requires OccursAt(o, k, key) && NumberAfter(d, key, t, j).None?
    ensures NumberAfter(d, key, o, j).None?
  {
    if NumberAfter(d, key, o, j).Some? {
      NumberBeforeKey(d, key, o, j, k);
      AgreeWithin(o, 0, t, 0, v, j, k - j);
      NumberAfterAgree(d, key, o, j, t, j, k - j);
      assert false;
    }
  }

  /**
   * The nearest key-and-number after `a` is still the nearest one when the
   * text is kept up to the number and the number is replaced by another.
   */
  lemma NearestKeyKept(d: Dialect, key: string, t: string, o: string, a: nat, k: nat, v: nat)
    requires KeyWord(key) && Agree(o, 0, t, 0, v) && v < |o| && IsNumberChar(o[v])
    requires NearestNumberKey(d, key, t, a, k, v)
    ensures FirstNumberKey(d, key, o, a) == Some(k) && NumberAfter(d, key, o, k) == Some(v)
  {
    AgreeWithin(o, 0, t, 0, v, k, |key|);
    OccursAgree(t, k, o, k, |key|, key);
    SkipSpacesIs(d, o, k + |key|, v);
    forall j | a <= j < k
      ensures NumberAfter(d, key, o, j).None?
    {
      NoNearerKey(d, key, t, o, k, v, j);
    }
    FirstNumberKeyIs(d, key, o, a, k);
  }

  /** The anchor end and the key of a coordinate match. */
  lemma CoordinateParts(id: string, key: string, t: string, p: nat) returns (a: nat, k: nat)
    requires CoordinateMatch(id, key, t, p).Some?
    ensures AnchorEnd(Quoted(JavaScript, id), t, p) == Some(a)
    ensures var h := CoordinateMatch(id, key, t, p).value;
      && NearestNumberKey(JavaScript, key, t, a, k, h.cuts[0])
      && h == Hit(p, [h.cuts[0]], NumberEnd(t, h.cuts[0]))
  {
    CoordinateMatchIs(id, key, t, p);
    a := AnchorEnd(Quoted(JavaScript, id), t, p).value;
    k := FirstNumberKey(JavaScript, key, t, a).value;
  }

  lemma CoordinateMatchFrom(id: string, key: string, t: string, p: nat, a: nat, k: nat, v: nat)
    requires AnchorEnd(Quoted(JavaScript, id), t, p) == Some(a)
    requires FirstNumberKey(JavaScript, key, t, a) == Some(k) && NumberAfter(JavaScript, key, t, k) == Some(v)
    ensures CoordinateMatch(id, key, t, p) == Some(Hit(p, [v], NumberEnd(t, v)))
  {
  }

  /**
   * Before the first match of a pass, its output has no match either: an
   * anchor there would end before the first match's `id:` and would already
   * have matched in the input.
   */
  lemma CoordinateNoneBefore(id: string, key: string, t: string, o: string, p: nat, v: nat, q: nat)
    requires Lacks(id, ':') && q < p && Agree(o, 0, t, 0, v)
    requires CoordinateMatch(id, key, t, p).Some? && CoordinateMatch(id, key, t, p).value.cuts[0] == v
    requires CoordinateMatch(id, key, t, q).None?
    ensures CoordinateMatch(id, key, o, q).None?
  {
    var anchor := Quoted(JavaScript, id);
    var ap, k := CoordinateParts(id, key, t, p);
    var x := QuotedAnchorParts(JavaScript, id, t, p);
    AgreeWithin(o, 0, t, 0, v, p, 3);
    OccursAgree(t, p, o, p, 3, "id:");
    CoordinateMatchIs(id, key, o, q);
    if AnchorEnd(anchor, o, q).Some? {
      var a := AnchorEnd(anchor, o, q).value;
      AnchorsApart(JavaScript, id, o, q, p);
      AgreeWithin(o, 0, t, 0, v, q, a - q);
      AnchorAgree(anchor, o, q, t, q, a - q);
      CoordinateMatchIs(id, key, t, q);
      assert false;
    }
  }

  /** A written value is a whole number run when what follows it does not continue the run. */
  lemma ValueRun(pre: string, value: string, rest: string)
    requires NumberText(value) && (rest == [] || !IsNumberChar(rest[0]))
    ensures NumberEnd(pre + value + rest, |pre|) == |pre| + |value|
  {
    var o := pre + value + rest;
    var v := |pre|;
    forall j | v <= j < v + |value|
      ensures IsNumberChar(o[j])
    {
      assert o[j] == value[j - v];
    }
    assert v + |value| == |o| || o[v + |value|] == rest[0];
    NumberEndIs(o, v, v + |value|);
  }

  /** A text kept up to a match's number, with a number there, still matches at the same place. */
  lemma CoordinateKeptMatch(id: string, key: string, t: string, o: string, p: nat, v: nat)
    requires KeyWord(key)
    requires CoordinateMatch(id, key, t, p).Some? && CoordinateMatch(id, key, t, p).value.cuts[0] == v
    requires Agree(o, 0, t, 0, v) && Agree(t, 0, o, 0, v) && v < |o| && IsNumberChar(o[v])
    ensures CoordinateMatch(id, key, o, p) == Some(Hit(p, [v], NumberEnd(o, v)))
  {
    var a, k := CoordinateParts(id, key, t, p);
    AgreeWithin(t, 0, o, 0, v, p, v - p);
    AnchorAgree(Quoted(JavaScript, id), t, p, o, p, v - p);
    NearestKeyKept(JavaScript, key, t, o, a, k, v);
    CoordinateMatchFrom(id, key, o, p, a, k, v);
  }

  /** The output around a replaced number: kept up to it, then the value as a whole run. */
  lemma ValueWritten(t: string, v: nat, value: string, rest: string, o: string)
    requires v <= |t| && NumberText(value) && (rest == [] || !IsNumberChar(rest[0]))
    requires o == t[..v] + value + rest
    ensures Agree(o, 0, t, 0, v) && Agree(t, 0, o, 0, v)
    ensures v < |o| && IsNumberChar(o[v]) && NumberEnd(o, v) == v + |value|
  {
    assert o[..v] == t[..v] && o[v] == value[0];
    PrefixAgree(o, t, v);
    PrefixAgree(t, o, v);
    ValueRun(t[..v], value, rest);
  }

  // ------------------------------------------------- a coordinate pass re-run

  /** The leftmost match of a coordinate pass is replaced, and the pass goes on after its number. */
  lemma CoordinateFirstStep(id: string, key: string, value: string, t: string, p: nat)
    requires Matches(Coordinate(id, key, value), t)(p).Some?
    requires forall q: nat :: q < p ==> Matches(Coordinate(id, key, value), t)(q).None?
    ensures var h := Matches(Coordinate(id, key, value), t)(p).value;
      ReplaceAll(Coordinate(id, key, value), t) == t[..h.cuts[0]] + value + ReplaceAll(Coordinate(id, key, value), t[h.end..])
  {
    var r := Coordinate(id, key, value);
    var m := Matches(r, t);
    var h := m(p).value;
    MatchesAdvance(r, t);
    ReplaceFromFirst(m, Renders(r, t), t, 0, p);
    CoordinatePassFrom(id, key, value, t, h.end);
    assert Renders(r, t)(h) == t[p..h.cuts[0]] + value;
    var tail := ReplaceFrom(m, Renders(r, t), t, h.end);
    assert ReplaceAll(r, t) == t[0..p] + ((t[p..h.cuts[0]] + value) + tail);
    KeepThenWrite(t, p, h.cuts[0], value, tail);
  }

  /** A coordinate pass keeps the first character of a text, and keeps the empty text empty. */
  lemma CoordinateHead(id: string, key: string, value: string, u: string)
    ensures var o := ReplaceAll(Coordinate(id, key, value), u);
      (u == [] ==> o == []) && (u != [] ==> o != [] && o[0] == u[0])
  {
    var r := Coordinate(id, key, value);
    var m := Matches(r, u);
    MatchesAdvance(r, u);
    match Leftmost(m, |u|, 0)
    case None =>
    case Some(h) =>
      var a, k := CoordinateParts(id, key, u, h.start);
      CoordinateFirstStep(id, key, value, u, h.start);
  }

  /**
   * A text kept up to the number of a pass's first match, with a number
   * there, has its first match at the same place, with the same number start.
   */
  lemma CoordinateFirstKept(id: string, key: string, value: string, t: string, p: nat, o: string)
    requires Lacks(id, ':') && KeyWord(key)
    requires Matches(Coordinate(id, key, value), t)(p).Some?
    requires forall q: nat :: q < p ==> Matches(Coordinate(id, key, value), t)(q).None?
    requires var v := Matches(Coordinate(id, key, value), t)(p).value.cuts[0];
      Agree(o, 0, t, 0, v) && Agree(t, 0, o, 0, v) && v < |o| && IsNumberChar(o[v])
    ensures var v := Matches(Coordinate(id, key, value), t)(p).value.cuts[0];
      Matches(Coordinate(id, key, value), o)(p) == Some(Hit(p, [v], NumberEnd(o, v)))
    ensures forall q: nat :: q < p ==> Matches(Coordinate(id, key, value), o)(q).None?
  {
    var r := Coordinate(id, key, value);
    var v := Matches(r, t)(p).value.cuts[0];
    forall q: nat | q < p
      ensures Matches(r, o)(q).None?
    {
      assert Matches(r, t)(q).None?;
      CoordinateNoneBefore(id, key, t, o, p, v, q);
    }
    CoordinateKeptMatch(id, key, t, o, p, v);
  }

  /**
   * The second run of a pass over its own output: with the first match's
   * number written and the rest already settled, nothing changes.
   */
  lemma CoordinateSecondPass(id: string, key: string, value: string, t: string, p: nat, rest: string, o: string)
    requires Lacks(id, ':') && KeyWord(key) && NumberText(value)
    requires Matches(Coordinate(id, key, value), t)(p).Some?
    requires forall q: nat :: q < p ==> Matches(Coordinate(id, key, value), t)(q).None?
    requires rest == [] || !IsNumberChar(rest[0])
    requires ReplaceAll(Coordinate(id, key, value), rest) == rest
    requires o == t[..Matches(Coordinate(id, key, value), t)(p).value.cuts[0]] + value + rest
    ensures ReplaceAll(Coordinate(id, key, value), o) == o
  {
    var r := Coordinate(id, key, value);
    var v := Matches(r, t)(p).value.cuts[0];
    ValueWritten(t, v, value, rest, o);
    CoordinateFirstKept(id, key, value, t, p, o);
    CoordinateFirstStep(id, key, value, o, p);
    assert o[v + |value|..] == rest;
    assert o[..v] == t[..v];
  }

  /**
   * One pass of update-coordinates.ts, run again on its own output, changes
   * nothing: every match is rewritten to the same value it now holds. This
   * needs the landmark id to have no colon, the key to be a word like `lat:`
   * and the value to be a number text.
   */
  lemma {:induction false} CoordinatePassIdempotent(id: string, key: string, value: string, t: string)
    requires Lacks(id, ':') && KeyWord(key) && NumberText(value)
    ensures var r := Coordinate(id, key, value);
      ReplaceAll(r, ReplaceAll(r, t)) == ReplaceAll(r, t)
    decreases |t|
  {
    var r := Coordinate(id, key, value);
    var m := Matches(r, t);
    MatchesAdvance(r, t);
    match Leftmost(m, |t|, 0)
    case None =>
      assert ReplaceAll(r, t) == t;
    case Some(h) =>
      var p := h.start;
      var a, k := CoordinateParts(id, key, t, p);
      var u := t[h.end..];
      CoordinateFirstStep(id, key, value, t, p);
      CoordinatePassIdempotent(id, key, value, u);
      CoordinateHead(id, key, value, u);
      CoordinateSecondPass(id, key, value, t, p, ReplaceAll(r, u), ReplaceAll(r, t));
  }
}

/**
 * A run of fix-coordinates.py for one entry, repeated on its own output.
 * The pattern matches once (`count=1`): the output keeps everything up to
 * the lat number and between the two numbers, so the same anchor, the same
 * `lat:` and the same `lng:` are found again, and writing the same two
 * numbers again leaves the text as it is. The second run still reports a
 * substitution.
 */
module PairReruns {
  import opened Common
  import opened Text
  import opened Engine
  import opened Patterns
  import opened Rewrite
  import opened Spans
  import opened Locality
  import opened Scripts
  import opened CoordinateReruns

  lemma LatKeyWord()
    ensures KeyWord("lat:") && KeyWord("lng:")
  {
  }

  /** A key-and-number window at `k` means the nearest one from any earlier `i` exists and is at or before `k`. */
  lemma NearestFromEarlier(d: Dialect, key: string, t: string, i: nat, k: nat)
    requires i <= k <= |t| && NumberAfter(d, key, t, k).Some?
    ensures FirstNumberKey(d, key, t, i).Some? && FirstNumberKey(d, key, t, i).value <= k
  {
  }

  /** Of two key-and-number windows, the earlier one's number ends no later than the other's. */
  lemma EarlierNumberEnds(d: Dialect, key: string, t: string, j: nat, k: nat)
    requires KeyWord(key) && j <= k
    requires NumberAfter(d, key, t, j).Some? && NumberAfter(d, key, t, k).Some?
    ensures NumberEnd(t, NumberAfter(d, key, t, j).value) <= NumberEnd(t, NumberAfter(d, key, t, k).value)
  {
    if j < k {
      NumberBeforeKey(d, key, t, j, k);
      assert t[k] == t[k..k + |key|][0] == key[0];
    }
  }

  /**
   * A pair pattern that matches at `p` also matches at an earlier position
   * whose anchor ends by `p`: the nearest `lat:` from there is at or before
   * the one of `p`, and its number ends no later than that one's.
   */
  lemma PairSomeAt(id: string, t: string, q: nat, p: nat)
    requires AnchorEnd(Quoted(Python, id), t, q).Some? && AnchorEnd(Quoted(Python, id), t, q).value <= p
    requires PairMatch(id, t, p).Some?
    ensures PairMatch(id, t, q).Some?
  {
    var a, k1, v1, k2, v2 := PairParts(id, t, p);
    var aq := AnchorEnd(Quoted(Python, id), t, q).value;
    NearestFromEarlier(Python, "lat:", t, aq, k1);
    var k := FirstNumberKey(Python, "lat:", t, aq).value;
    var v := NumberAfter(Python, "lat:", t, k).value;
    LatKeyWord();
    EarlierNumberEnds(Python, "lat:", t, k, k1);
    var e := NumberEnd(t, v);
    NearestFromEarlier(Python, "lng:", t, e, k2);
    var g := FirstNumberKey(Python, "lng:", t, e).value;
    PairMatchFrom(id, t, q, aq, k, v, e, g, NumberAfter(Python, "lng:", t, g).value);
  }

  /**
   * Before the first match of the pattern, the output has no match either:
   * an anchor there would end before the first match's `id:` and the input
   * would already have matched there.
   */
  lemma PairNoneBefore(id: string, t: string, o: string, p: nat, v: nat, q: nat)
    requires Lacks(id, ':') && q < p && Agree(o, 0, t, 0, v)
    requires PairMatch(id, t, p).Some? && PairMatch(id, t, p).value.cuts[1] == v
    requires PairMatch(id, t, q).None?
    ensures PairMatch(id, o, q).None?
  {
    var anchor := Quoted(Python, id);
    var a, k1, v1, k2, v2 := PairParts(id, t, p);
    var x := QuotedAnchorParts(Python, id, t, p);
    AgreeWithin(o, 0, t, 0, v, p, 3);
    OccursAgree(t, p, o, p, 3, "id:");
    if AnchorEnd(anchor, o, q).Some? {
      var aq := AnchorEnd(anchor, o, q).value;
      AnchorsApart(Python, id, o, q, p);
      AgreeWithin(o, 0, t, 0, v, q, aq - q);
      AnchorAgree(anchor, o, q, t, q, aq - q);
      PairSomeAt(id, t, q, p);
      assert false;
    }
  }

  // ---------------------------------------------------- the output matched again

  /** The nearest key-and-number from `i` in a text, at `ka` and `va`, seen in its suffix from `i`. */
  lemma KeyToSuffix(d: Dialect, key: string, t: string, i: nat, u: string, ka: nat, va: nat, k: nat, v: nat)
    requires SameSuffix(t, i, u, 0) && NearestNumberKey(d, key, t, i, ka, va) && ka == k + i && va == v + i
    ensures NearestNumberKey(d, key, u, 0, k, v)
  {
    FirstNumberKeyIs(d, key, t, i, ka);
    SameSuffixSymmetric(t, i, u, 0);
    FirstNumberKeySuffix(d, key, u, 0, t, i);
    SuffixFrom(u, 0, t, i, k, |u|);
    NumberAfterSuffix(d, key, u, k, t, ka);
    assert FirstNumberKey(d, key, u, 0) == Some(k);
    var x := NumberAfter(d, key, u, k);
    assert ShiftedBy(x, NumberAfter(d, key, t, ka), i);
    assert x.Some? && x.value == v;
  }

  /** The nearest key-and-number in a suffix from `i`, seen in the whole text at `ka` and `va`. */
  lemma KeyFromSuffix(d: Dialect, key: string, t: string, i: nat, u: string, k: nat, v: nat, ka: nat, va: nat)
    requires SameSuffix(t, i, u, 0) && ka == k + i && va == v + i
    requires FirstNumberKey(d, key, u, 0) == Some(k) && NumberAfter(d, key, u, k) == Some(v)
    ensures FirstNumberKey(d, key, t, i) == Some(ka) && NumberAfter(d, key, t, ka) == Some(va)
  {
    SameSuffixSymmetric(t, i, u, 0);
    FirstNumberKeySuffix(d, key, u, 0, t, i);
    var x := FirstNumberKey(d, key, t, i);
    assert x.Some? && x.value == ka;
    SuffixFrom(u, 0, t, i, k, |u|);
    NumberAfterSuffix(d, key, u, k, t, ka);
    var y := NumberAfter(d, key, t, ka);
    assert y.Some? && y.value == va;
  }

  /** A number run in a suffix from `i`, seen in the whole text. */
  lemma NumberEndFromSuffix(t: string, i: nat, u: string, x: nat, xa: nat, n: nat)
    requires SameSuffix(t, i, u, 0) && x <= |u| && NumberEnd(u, x) == x + n && xa == x + i
    ensures xa <= |t| && NumberEnd(t, xa) == xa + n
  {
    SuffixFrom(t, i, u, 0, xa, |t|);
    NumberEndSuffix(t, xa, u, x);
  }

  /** A key, its number and the number's run in a suffix from `i`, seen in the whole text at `ka` and `va`. */
  lemma KeyRunFromSuffix(d: Dialect, key: string, t: string, i: nat, u: string, k: nat, v: nat, n: nat, ka: nat, va: nat)
    requires SameSuffix(t, i, u, 0) && ka == k + i && va == v + i
    requires FirstNumberKey(d, key, u, 0) == Some(k) && NumberAfter(d, key, u, k) == Some(v)
    requires NumberEnd(u, v) == v + n
    ensures FirstNumberKey(d, key, t, i) == Some(ka) && NumberAfter(d, key, t, ka) == Some(va)
    ensures NumberEnd(t, va) == va + n
  {
    KeyFromSuffix(d, key, t, i, u, k, v, ka, va);
    NumberEndFromSuffix(t, i, u, v, va, n);
  }

  /** The lat side of the output: the same key, and the written number as a whole run. */
  lemma LatKept(t: string, o: string, a: nat, k1: nat, v1: nat, lat: string, rest: string)
    requires NearestNumberKey(Python, "lat:", t, a, k1, v1) && v1 <= |t|
    requires NumberText(lat) && (rest == [] || !IsNumberChar(rest[0]))
    requires o == t[..v1] + lat + rest
    ensures Agree(o, 0, t, 0, v1) && Agree(t, 0, o, 0, v1)
    ensures FirstNumberKey(Python, "lat:", o, a) == Some(k1) && NumberAfter(Python, "lat:", o, k1) == Some(v1)
    ensures NumberEnd(o, v1) == v1 + |lat|
  {
    ValueWritten(t, v1, lat, rest, o);
    LatKeyWord();
    NearestKeyKept(Python, "lat:", t, o, a, k1, v1);
  }

  /**
   * The lng side of the output, from the end of the lat number on: it goes
   * on as the input does after the old lat number, up to the lng number,
   * which is rewritten. Positions are relative to the end of the lat number.
   */
  lemma LngInSuffix(d: Dialect, key: string, t: string, e1: nat, k2: nat, v2: nat, k: nat, v: nat, o2: string, lng: string)
    requires KeyWord(key) && NearestNumberKey(d, key, t, e1, k2, v2) && NumberRun(t, v2, NumberEnd(t, v2))
    requires k2 == k + e1 && v2 == v + e1
    requires NumberText(lng) && o2 == t[e1..v2] + lng + t[NumberEnd(t, v2)..]
    ensures FirstNumberKey(d, key, o2, 0) == Some(k) && NumberAfter(d, key, o2, k) == Some(v)
    ensures NumberEnd(o2, v) == v + |lng|
  {
    var t2 := t[e1..];
    SuffixOfItself(t, e1);
    KeyToSuffix(d, key, t, e1, t2, k2, v2, k, v);
    assert t2[..v] == t[e1..v2];
    ValueWritten(t2, v, lng, t[NumberEnd(t, v2)..], o2);
    NearestKeyKept(d, key, t2, o2, 0, k, v);
  }

  /** A text followed by another has the other as its suffix. */
  lemma SuffixOfJoin(pre: string, rest: string, o: string)
    requires o == pre + rest
    ensures SameSuffix(o, |pre|, rest, 0)
  {
    SameSuffixIsEquality(o, |pre|, rest, 0);
    assert o[|pre|..] == rest;
  }

  /**
   * The output of a substitution matches at the same place: the same anchor,
   * the same `lat:` with the written lat number, and the same `lng:` with
   * the written lng number.
   */
  lemma PairOutputMatches(id: string, t: string, p: nat, a: nat, k1: nat, v1: nat, k2: nat, v2: nat,
                          lat: string, lng: string, rest: string, o: string, w1: nat, w2: nat, f2: nat)
    requires AnchorEnd(Quoted(Python, id), t, p) == Some(a)
    requires NearestNumberKey(Python, "lat:", t, a, k1, v1) && NumberRun(t, v1, NumberEnd(t, v1))
    requires NearestNumberKey(Python, "lng:", t, NumberEnd(t, v1), k2, v2) && NumberRun(t, v2, NumberEnd(t, v2))
    requires NumberText(lat) && NumberText(lng)
    requires rest == t[NumberEnd(t, v1)..v2] + lng + t[NumberEnd(t, v2)..] && o == t[..v1] + lat + rest
    requires w1 == v1 + |lat| && w2 == w1 + v2 - NumberEnd(t, v1) && f2 == w2 + |lng|
    ensures Agree(o, 0, t, 0, v1)
    ensures PairHitAt(id, PairMatch(id, o, p), p, a, v1, w1, w2, f2)
  {
    var e1 := NumberEnd(t, v1);
    assert rest[0] == t[e1];
    LatKept(t, o, a, k1, v1, lat, rest);
    AgreeWithin(t, 0, o, 0, v1, p, v1 - p);
    AnchorAgree(Quoted(Python, id), t, p, o, p, v1 - p);
    var pre := t[..v1] + lat;
    assert |pre| == w1;
    SuffixOfJoin(pre, rest, o);
    assert SameSuffix(o, w1, rest, 0);
    var k, v := k2 - e1, v2 - e1;
    LatKeyWord();
    LngInSuffix(Python, "lng:", t, e1, k2, v2, k, v, rest, lng);
    var k2o := k + w1;
    KeyRunFromSuffix(Python, "lng:", o, w1, rest, k, v, |lng|, k2o, w2);
    PairMatchFrom(id, o, p, a, k1, v1, w1, k2o, w2);
  }

  /** The output, cut where it is matched again and put back together with the same two numbers, is itself. */
  lemma WrittenAgain(t: string, v1: nat, e1: nat, v2: nat, e2: nat, lat: string, lng: string, rest: string, o: string,
                     w1: nat, w2: nat, f2: nat)
    requires v1 <= e1 <= v2 <= e2 <= |t|
    requires rest == t[e1..v2] + lng + t[e2..] && o == t[..v1] + lat + rest
    requires w1 == v1 + |lat| && w2 == w1 + v2 - e1 && f2 == w2 + |lng|
    ensures o[..v1] + lat + o[w1..w2] + lng + o[f2..] == o
  {
    assert o[..v1] == t[..v1];
    assert o[w1..] == rest;
    assert o[w1..w2] == rest[..v2 - e1] == t[e1..v2];
    assert o[f2..] == rest[v2 - e1 + |lng|..] == t[e2..];
  }

  /**
   * A single substitution that finds its first match at `p` and writes back
   * exactly what was there reports one substitution and leaves the text as
   * it is.
   */
  lemma OnceUnchanged(r: Rule, o: string, p: nat)
    requires Matches(r, o)(p).Some? && forall q: nat :: q < p ==> Matches(r, o)(q).None?
    requires var h := Matches(r, o)(p).value; o[..p] + Renders(r, o)(h) + o[h.end..] == o
    ensures ReplaceOnce(r, o) == (o, 1)
  {
    MatchesAdvance(r, o);
    ReplaceFirstAt(Matches(r, o), Renders(r, o), o, p);
  }

  /** A substitution of the pair pattern at `p`, by its parts: the text with the two numbers rewritten. */
  lemma PairSubstituted(e: Coordinates, t: string, p: nat) returns (a: nat, k1: nat, v1: nat, k2: nat, v2: nat)
    requires Matches(PairPass(e), t)(p).Some?
    ensures AnchorEnd(Quoted(Python, e.id), t, p) == Some(a)
    ensures NearestNumberKey(Python, "lat:", t, a, k1, v1) && NumberRun(t, v1, NumberEnd(t, v1))
    ensures NearestNumberKey(Python, "lng:", t, NumberEnd(t, v1), k2, v2) && NumberRun(t, v2, NumberEnd(t, v2))
    ensures PairMatch(e.id, t, p).Some? && PairMatch(e.id, t, p).value.cuts[1] == v1
    ensures var h := Matches(PairPass(e), t)(p).value;
      t[..p] + Renders(PairPass(e), t)(h) + t[h.end..]
        == t[..v1] + e.lat + (t[NumberEnd(t, v1)..v2] + e.lng + t[NumberEnd(t, v2)..])
  {
    var r := PairPass(e);
    var h := Matches(r, t)(p).value;
    assert Matches(r, t)(p) == PairMatch(e.id, t, p);
    a, k1, v1, k2, v2 := PairParts(e.id, t, p);
    var e1, e2 := NumberEnd(t, v1), NumberEnd(t, v2);
    assert h.cuts[1] == v1 && h.cuts[2] == e1 && h.cuts[3] == v2 && h.end == e2;
    assert Renders(r, t)(h) == Render(r, t, h);
    PairMatchShape(e.id, e.lat, e.lng, t, p);
    assert t[..p] + Renders(r, t)(h) + t[h.end..] == t[..v1] + e.lat + t[e1..v2] + e.lng + t[e2..];
    Regroup(t[..v1], e.lat, t[e1..v2], e.lng, t[e2..]);
  }

  lemma Regroup(x1: string, x2: string, x3: string, x4: string, x5: string)
    ensures x1 + x2 + x3 + x4 + x5 == x1 + x2 + (x3 + x4 + x5)
  {
  }

  /** `PairNoneBefore`, for the pattern of an entry. */
  lemma PairNoneBeforeKept(e: Coordinates, t: string, o: string, p: nat, v: nat, q: nat)
    requires Lacks(e.id, ':') && q < p && Agree(o, 0, t, 0, v)
    requires PairMatch(e.id, t, p).Some? && PairMatch(e.id, t, p).value.cuts[1] == v
    requires Matches(PairPass(e), t)(q).None?
    ensures Matches(PairPass(e), o)(q).None?
  {
    assert Matches(PairPass(e), t)(q) == PairMatch(e.id, t, q);
    PairNoneBefore(e.id, t, o, p, v, q);
    assert Matches(PairPass(e), o)(q) == PairMatch(e.id, o, q);
  }

  /** Substituting a pair match rewrites its two number runs and nothing else. */
  lemma PairRendered(e: Coordinates, t: string, p: nat, a: nat, v1: nat, e1: nat, v2: nat, e2: nat)
    requires PairHitAt(e.id, PairMatch(e.id, t, p), p, a, v1, e1, v2, e2)
    ensures Matches(PairPass(e), t)(p).Some?
    ensures var h := Matches(PairPass(e), t)(p).value;
      t[..p] + Renders(PairPass(e), t)(h) + t[h.end..] == t[..v1] + e.lat + t[e1..v2] + e.lng + t[e2..]
  {
    var r := PairPass(e);
    assert Matches(r, t)(p) == PairMatch(e.id, t, p);
    var h := Matches(r, t)(p).value;
    PairAnchorFacts(e.id, t, p);
    assert Renders(r, t)(h) == Render(r, t, h);
    PairRender(e.id, e.lat, e.lng, t, h);
  }

  /** The output of a substitution at `p` matches at `p` again, and substituting there gives it back. */
  lemma PairOutputAgain(e: Coordinates, t: string, p: nat, a: nat, k1: nat, v1: nat, k2: nat, v2: nat, o: string)
    requires NumberText(e.lat) && NumberText(e.lng)
    requires AnchorEnd(Quoted(Python, e.id), t, p) == Some(a)
    requires NearestNumberKey(Python, "lat:", t, a, k1, v1) && NumberRun(t, v1, NumberEnd(t, v1))
    requires NearestNumberKey(Python, "lng:", t, NumberEnd(t, v1), k2, v2) && NumberRun(t, v2, NumberEnd(t, v2))
    requires o == t[..v1] + e.lat + (t[NumberEnd(t, v1)..v2] + e.lng + t[NumberEnd(t, v2)..])
    ensures Agree(o, 0, t, 0, v1)
    ensures Matches(PairPass(e), o)(p).Some?
    ensures var h := Matches(PairPass(e), o)(p).value; o[..p] + Renders(PairPass(e), o)(h) + o[h.end..] == o
  {
    var r := PairPass(e);
    var e1, e2 := NumberEnd(t, v1), NumberEnd(t, v2);
    var rest := t[e1..v2] + e.lng + t[e2..];
    var w1 := v1 + |e.lat|;
    var w2 := w1 + v2 - e1;
    var f2 := w2 + |e.lng|;
    PairOutputMatches(e.id, t, p, a, k1, v1, k2, v2, e.lat, e.lng, rest, o, w1, w2, f2);
    PairRendered(e, o, p, a, v1, w1, w2, f2);
    WrittenAgain(t, v1, e1, v2, e2, e.lat, e.lng, rest, o, w1, w2, f2);
  }

  /** The output of a substitution at `p` has its first match at `p`, and substituting there gives it back. */
  lemma PairRerunAt(e: Coordinates, t: string, p: nat, o: string)
    requires Lacks(e.id, ':') && NumberText(e.lat) && NumberText(e.lng)
    requires Matches(PairPass(e), t)(p).Some? && forall q: nat :: q < p ==> Matches(PairPass(e), t)(q).None?
    requires var h := Matches(PairPass(e), t)(p).value; o == t[..p] + Renders(PairPass(e), t)(h) + t[h.end..]
    ensures Matches(PairPass(e), o)(p).Some? && forall q: nat :: q < p ==> Matches(PairPass(e), o)(q).None?
    ensures var h := Matches(PairPass(e), o)(p).value; o[..p] + Renders(PairPass(e), o)(h) + o[h.end..] == o
  {
    var a, k1, v1, k2, v2 := PairSubstituted(e, t, p);
    PairOutputAgain(e, t, p, a, k1, v1, k2, v2, o);
    forall q: nat | q < p
      ensures Matches(PairPass(e), o)(q).None?
    {
      PairNoneBeforeKept(e, t, o, p, v1, q);
    }
  }

  /**
   * fix-coordinates.py run twice with the same entry: when the first run
   * substitutes, the second finds the same match, writes the same two
   * numbers and reports a substitution again; when it does not, neither does
   * the second. Either way the text is left as the first run left it and the
   * count repeats.
   */
  lemma PairRerun(e: Coordinates, t: string)
    requires Lacks(e.id, ':') && NumberText(e.lat) && NumberText(e.lng)
    ensures var (o, n) := ReplaceOnce(PairPass(e), t);
      ReplaceOnce(PairPass(e), o) == (o, n)
  {
    if ReplaceOnce(PairPass(e), t).1 == 1 {
      var p := OnceAt(PairPass(e), t);
      var o := ReplaceOnce(PairPass(e), t).0;
      PairRerunAt(e, t, p, o);
      OnceUnchanged(PairPass(e), o, p);
    }
  }
}

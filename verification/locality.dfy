/**
 * The scanners of the patterns only look at a bounded window of text ahead
 * of where they start. The lemmas here say that two texts agreeing on such a
 * window give the same answer there (shifted to the window's place), and
 * that the windows never run across a field key. They are what the re-run
 * lemmas stand on.
 */
module Locality {
  import opened Common
  import opened Text
  import opened JsRegExp
  import opened Engine
  import opened Patterns
  import opened Rewrite
  import opened Spans

  /** `t1` from `i1` on and `t2` from `i2` on agree on `n` characters. */
  predicate Agree(t1: string, i1: nat, t2: string, i2: nat, n: nat) {
    && i1 + n <= |t1| && i2 + n <= |t2|
    && forall k :: i1 <= k < i1 + n ==> t1[k] == t2[k - i1 + i2]
  }

  /** Equal suffixes agree on their whole length. */
  lemma SuffixAgree(t1: string, i1: nat, t2: string, i2: nat)
    requires SameSuffix(t1, i1, t2, i2)
    ensures |t1| - i1 == |t2| - i2 && Agree(t1, i1, t2, i2, |t1| - i1)
  {
    SameSuffixIsEquality(t1, i1, t2, i2);
    forall k | i1 <= k < |t1|
      ensures t1[k] == t2[k - i1 + i2]
    {
      assert t1[i1..][k - i1] == t2[i2..][k - i1];
    }
  }

  /** Equal slices agree. */
  lemma SliceAgree(t1: string, i1: nat, t2: string, i2: nat, n: nat)
    requires i1 + n <= |t1| && i2 + n <= |t2| && t1[i1..i1 + n] == t2[i2..i2 + n]
    ensures Agree(t1, i1, t2, i2, n)
  {
    forall k | i1 <= k < i1 + n
      ensures t1[k] == t2[k - i1 + i2]
    {
      assert t1[i1..i1 + n][k - i1] == t2[i2..i2 + n][k - i1];
    }
  }

  /** A window inside an agreeing window agrees. */
  lemma AgreeWithin(t1: string, i1: nat, t2: string, i2: nat, n: nat, x: nat, m: nat)
    requires Agree(t1, i1, t2, i2, n) && x + m <= n
    ensures Agree(t1, i1 + x, t2, i2 + x, m)
  {
  }

  // ------------------------------------------------- scanners, characterised

  lemma SkipSpacesIs(d: Dialect, t: string, i: nat, j: nat)
    requires i <= j <= |t|
    requires forall k :: i <= k < j ==> IsSpace(d, t[k])
    requires j == |t| || !IsSpace(d, t[j])
    ensures SkipSpaces(d, t, i) == j
  {
  }

  lemma NumberEndIs(t: string, i: nat, j: nat)
    requires i <= j <= |t|
    requires forall k :: i <= k < j ==> IsNumberChar(t[k])
    requires j == |t| || !IsNumberChar(t[j])
    ensures NumberEnd(t, i) == j
  {
  }

  // ------------------------------------------------ agreement on a window

  lemma OccursAgree(t1: string, i1: nat, t2: string, i2: nat, n: nat, w: string)
    requires Agree(t1, i1, t2, i2, n) && |w| <= n
    ensures OccursAt(t1, i1, w) <==> OccursAt(t2, i2, w)
  {
    var s1, s2 := t1[i1..i1 + |w|], t2[i2..i2 + |w|];
    forall k | 0 <= k < |w|
      ensures s1[k] == s2[k]
    {
      assert t1[i1 + k] == t2[i1 + k - i1 + i2];
    }
    assert s1 == s2;
  }

  /** `\s*` stops at the same place in both texts when it stops inside the window (or both windows run to the end). */
  lemma SkipAgree(d: Dialect, t1: string, i1: nat, t2: string, i2: nat, n: nat)
    requires Agree(t1, i1, t2, i2, n)
    requires SkipSpaces(d, t1, i1) < i1 + n || (i1 + n == |t1| && i2 + n == |t2|)
    ensures SkipSpaces(d, t2, i2) == SkipSpaces(d, t1, i1) - i1 + i2
  {
    var j1 := SkipSpaces(d, t1, i1);
    var j2 := j1 - i1 + i2;
    forall k | i2 <= k < j2
      ensures IsSpace(d, t2[k])
    {
      assert t1[k - i2 + i1] == t2[k - i2 + i1 - i1 + i2];
    }
    if j1 < i1 + n {
      assert t1[j1] == t2[j1 - i1 + i2];
    }
    SkipSpacesIs(d, t2, i2, j2);
  }

  lemma NumberEndAgree(t1: string, i1: nat, t2: string, i2: nat, n: nat)
    requires Agree(t1, i1, t2, i2, n)
    requires NumberEnd(t1, i1) < i1 + n || (i1 + n == |t1| && i2 + n == |t2|)
    ensures NumberEnd(t2, i2) == NumberEnd(t1, i1) - i1 + i2
  {
    var j1 := NumberEnd(t1, i1);
    var j2 := j1 - i1 + i2;
    forall k | i2 <= k < j2
      ensures IsNumberChar(t2[k])
    {
      assert t1[k - i2 + i1] == t2[k - i2 + i1 - i1 + i2];
    }
    if j1 < i1 + n {
      assert t1[j1] == t2[j1 - i1 + i2];
    }
    NumberEndIs(t2, i2, j2);
  }

  /** A key whose number starts inside the window is found in both texts. */
  lemma NumberAfterAgree(d: Dialect, key: string, t1: string, i1: nat, t2: string, i2: nat, n: nat)
    requires Agree(t1, i1, t2, i2, n)
    requires NumberAfter(d, key, t1, i1).Some? && NumberAfter(d, key, t1, i1).value < i1 + n
    ensures NumberAfter(d, key, t2, i2) == Some(NumberAfter(d, key, t1, i1).value - i1 + i2)
  {
    var v := NumberAfter(d, key, t1, i1).value;
    OccursAgree(t1, i1, t2, i2, n, key);
    AgreeWithin(t1, i1, t2, i2, n, |key|, n - |key|);
    SkipAgree(d, t1, i1 + |key|, t2, i2 + |key|, n - |key|);
    assert t1[v] == t2[v - i1 + i2];
  }

  lemma BracketAgree(t1: string, i1: nat, t2: string, i2: nat, n: nat)
    requires Agree(t1, i1, t2, i2, n)
    requires BracketAfterPhotos(t1, i1).Some? && BracketAfterPhotos(t1, i1).value <= i1 + n
    ensures BracketAfterPhotos(t2, i2) == Some(BracketAfterPhotos(t1, i1).value - i1 + i2)
  {
    var b := BracketAfterPhotos(t1, i1).value;
    OccursAgree(t1, i1, t2, i2, n, "photos:");
    AgreeWithin(t1, i1, t2, i2, n, 7, n - 7);
    SkipAgree(JavaScript, t1, i1 + 7, t2, i2 + 7, n - 7);
    assert t1[b - 1] == t2[b - 1 - i1 + i2];
  }

  /** An anchor that ends inside the window is found in both texts. */
  lemma AnchorAgree(a: Anchor, t1: string, i1: nat, t2: string, i2: nat, n: nat)
    requires Agree(t1, i1, t2, i2, n)
    requires AnchorEnd(a, t1, i1).Some? && AnchorEnd(a, t1, i1).value <= i1 + n
    ensures AnchorEnd(a, t2, i2) == Some(AnchorEnd(a, t1, i1).value - i1 + i2)
  {
    match a
    case Quoted(d, id) => QuotedAgree(d, id, t1, i1, t2, i2, n);
    case Exact(id) => OccursAgree(t1, i1, t2, i2, n, "id: '" + id + "',");
    case DashLoose(id) => DashLooseAgree(id, t1, i1, t2, i2, n);
  }

  lemma QuotedAgree(d: Dialect, id: string, t1: string, i1: nat, t2: string, i2: nat, n: nat)
    requires Agree(t1, i1, t2, i2, n)
    requires AnchorEnd(Quoted(d, id), t1, i1).Some? && AnchorEnd(Quoted(d, id), t1, i1).value <= i1 + n
    ensures AnchorEnd(Quoted(d, id), t2, i2) == Some(AnchorEnd(Quoted(d, id), t1, i1).value - i1 + i2)
  {
    var q := QuotedAnchorParts(d, id, t1, i1);
    QuotedPartsAgree(d, id, t1, i1, t2, i2, n, q);
    QuotedAnchorIs(d, id, t2, i2, q - i1 + i2);
  }

  lemma QuotedPartsAgree(d: Dialect, id: string, t1: string, i1: nat, t2: string, i2: nat, n: nat, q: nat)
    requires Agree(t1, i1, t2, i2, n)
    requires OccursAt(t1, i1, "id:") && q == SkipSpaces(d, t1, i1 + 3) && q + 2 + |id| <= i1 + n
    requires IsQuote(t1[q]) && OccursAt(t1, q + 1, id) && IsQuote(t1[q + 1 + |id|])
    ensures OccursAt(t2, i2, "id:") && q - i1 + i2 == SkipSpaces(d, t2, i2 + 3)
    ensures IsQuote(t2[q - i1 + i2]) && OccursAt(t2, q + 1 - i1 + i2, id) && IsQuote(t2[q + 1 + |id| - i1 + i2])
  {
    OccursAgree(t1, i1, t2, i2, n, "id:");
    AgreeWithin(t1, i1, t2, i2, n, 3, n - 3);
    SkipAgree(d, t1, i1 + 3, t2, i2 + 3, n - 3);
    QuotedIdAgree(id, t1, i1, t2, i2, n, q);
  }

  lemma QuotedIdAgree(id: string, t1: string, i1: nat, t2: string, i2: nat, n: nat, q: nat)
    requires Agree(t1, i1, t2, i2, n) && i1 <= q && q + 2 + |id| <= i1 + n
    requires IsQuote(t1[q]) && OccursAt(t1, q + 1, id) && IsQuote(t1[q + 1 + |id|])
    ensures IsQuote(t2[q - i1 + i2]) && OccursAt(t2, q + 1 - i1 + i2, id) && IsQuote(t2[q + 1 + |id| - i1 + i2])
  {
    assert t1[q] == t2[q - i1 + i2];
    assert t1[q + 1 + |id|] == t2[q + 1 + |id| - i1 + i2];
    AgreeWithin(t1, i1, t2, i2, n, q + 1 - i1, |id|);
    OccursAgree(t1, q + 1, t2, q + 1 - i1 + i2, |id|, id);
  }

  /** What a quoted anchor at `p` is made of: `id:`, spaces up to `q`, then the quoted id. */
  lemma QuotedAnchorParts(d: Dialect, id: string, t: string, p: nat) returns (q: nat)
    requires AnchorEnd(Quoted(d, id), t, p).Some?
    ensures OccursAt(t, p, "id:") && q == SkipSpaces(d, t, p + 3)
    ensures q + 2 + |id| <= |t| && IsQuote(t[q]) && OccursAt(t, q + 1, id) && IsQuote(t[q + 1 + |id|])
    ensures AnchorEnd(Quoted(d, id), t, p) == Some(q + 2 + |id|)
  {
    q := SkipSpaces(d, t, p + 3);
  }

  lemma QuotedAnchorIs(d: Dialect, id: string, t: string, p: nat, q: nat)
    requires OccursAt(t, p, "id:") && q == SkipSpaces(d, t, p + 3)
    requires q + 2 + |id| <= |t| && IsQuote(t[q]) && OccursAt(t, q + 1, id) && IsQuote(t[q + 1 + |id|])
    ensures AnchorEnd(Quoted(d, id), t, p) == Some(q + 2 + |id|)
  {
  }

  lemma DashLooseAgree(id: string, t1: string, i1: nat, t2: string, i2: nat, n: nat)
    requires Agree(t1, i1, t2, i2, n)
    requires AnchorEnd(DashLoose(id), t1, i1).Some? && AnchorEnd(DashLoose(id), t1, i1).value <= i1 + n
    ensures AnchorEnd(DashLoose(id), t2, i2) == Some(AnchorEnd(DashLoose(id), t1, i1).value - i1 + i2)
  {
    OccursAgree(t1, i1, t2, i2, n, "id: '");
    forall k | 0 <= k < |id|
      ensures IdCharMatches(id[k], t2[i2 + 5 + k])
    {
      assert t1[i1 + 5 + k] == t2[i1 + 5 + k - i1 + i2];
    }
    AgreeWithin(t1, i1, t2, i2, n, 5 + |id|, 2);
    OccursAgree(t1, i1 + 5 + |id|, t2, i2 + 5 + |id|, 2, "',");
  }

  // ------------------------------------------------- agreement on a suffix

  /** Where an optional index is found, moved by `delta`. */
  predicate ShiftedBy(o1: Option<nat>, o2: Option<nat>, delta: int) {
    o1.None? == o2.None? && (o1.Some? ==> o2.value == o1.value + delta)
  }

  lemma {:induction false} FirstNumberKeySuffix(d: Dialect, key: string, t1: string, a1: nat, t2: string, a2: nat)
    requires SameSuffix(t1, a1, t2, a2)
    ensures ShiftedBy(FirstNumberKey(d, key, t1, a1), FirstNumberKey(d, key, t2, a2), a2 - a1)
    decreases |t1| - a1
  {
    SuffixAgree(t1, a1, t2, a2);
    SameSuffixSymmetric(t1, a1, t2, a2);
    SuffixAgree(t2, a2, t1, a1);
    if NumberAfter(d, key, t1, a1).Some? {
      NumberAfterAgree(d, key, t1, a1, t2, a2, |t1| - a1);
    } else if NumberAfter(d, key, t2, a2).Some? {
      NumberAfterAgree(d, key, t2, a2, t1, a1, |t2| - a2);
    } else if a1 < |t1| {
      SuffixFrom(t1, a1, t2, a2, a1 + 1, |t1|);
      FirstNumberKeySuffix(d, key, t1, a1 + 1, t2, a2 + 1);
    }
  }

  lemma {:induction false} FirstPhotosKeySuffix(t1: string, a1: nat, t2: string, a2: nat)
    requires SameSuffix(t1, a1, t2, a2)
    ensures ShiftedBy(FirstPhotosKey(t1, a1), FirstPhotosKey(t2, a2), a2 - a1)
    decreases |t1| - a1
  {
    SuffixAgree(t1, a1, t2, a2);
    SameSuffixSymmetric(t1, a1, t2, a2);
    SuffixAgree(t2, a2, t1, a1);
    if BracketAfterPhotos(t1, a1).Some? {
      BracketAgree(t1, a1, t2, a2, |t1| - a1);
    } else if BracketAfterPhotos(t2, a2).Some? {
      BracketAgree(t2, a2, t1, a1, |t2| - a2);
    } else if a1 < |t1| {
      SuffixFrom(t1, a1, t2, a2, a1 + 1, |t1|);
      FirstPhotosKeySuffix(t1, a1 + 1, t2, a2 + 1);
    }
  }

  lemma {:induction false} FindSuffix(t1: string, a1: nat, t2: string, a2: nat, w: string)
    requires SameSuffix(t1, a1, t2, a2)
    ensures ShiftedBy(Find(t1, a1, w), Find(t2, a2, w), a2 - a1)
    decreases |t1| - a1
  {
    SuffixAgree(t1, a1, t2, a2);
    if |w| <= |t1| - a1 {
      OccursAgree(t1, a1, t2, a2, |t1| - a1, w);
    }
    if a1 < |t1| {
      SuffixFrom(t1, a1, t2, a2, a1 + 1, |t1|);
      FindSuffix(t1, a1 + 1, t2, a2 + 1, w);
    }
  }

  /** An anchor is found at corresponding places of equal suffixes. */
  lemma AnchorSuffix(a: Anchor, t1: string, x1: nat, t2: string, x2: nat)
    requires SameSuffix(t1, x1, t2, x2)
    ensures ShiftedBy(AnchorEnd(a, t1, x1), AnchorEnd(a, t2, x2), x2 - x1)
  {
    SuffixAgree(t1, x1, t2, x2);
    SameSuffixSymmetric(t1, x1, t2, x2);
    SuffixAgree(t2, x2, t1, x1);
    if AnchorEnd(a, t1, x1).Some? {
      AnchorAgree(a, t1, x1, t2, x2, |t1| - x1);
    } else if AnchorEnd(a, t2, x2).Some? {
      AnchorAgree(a, t2, x2, t1, x1, |t2| - x2);
    }
  }

  lemma NumberAfterSuffix(d: Dialect, key: string, t1: string, x1: nat, t2: string, x2: nat)
    requires SameSuffix(t1, x1, t2, x2)
    ensures ShiftedBy(NumberAfter(d, key, t1, x1), NumberAfter(d, key, t2, x2), x2 - x1)
  {
    SuffixAgree(t1, x1, t2, x2);
    SameSuffixSymmetric(t1, x1, t2, x2);
    SuffixAgree(t2, x2, t1, x1);
    if NumberAfter(d, key, t1, x1).Some? {
      NumberAfterAgree(d, key, t1, x1, t2, x2, |t1| - x1);
    } else if NumberAfter(d, key, t2, x2).Some? {
      NumberAfterAgree(d, key, t2, x2, t1, x1, |t2| - x2);
    }
  }

  lemma BracketSuffix(t1: string, x1: nat, t2: string, x2: nat)
    requires SameSuffix(t1, x1, t2, x2)
    ensures ShiftedBy(BracketAfterPhotos(t1, x1), BracketAfterPhotos(t2, x2), x2 - x1)
  {
    SuffixAgree(t1, x1, t2, x2);
    SameSuffixSymmetric(t1, x1, t2, x2);
    SuffixAgree(t2, x2, t1, x1);
    if BracketAfterPhotos(t1, x1).Some? {
      BracketAgree(t1, x1, t2, x2, |t1| - x1);
    } else if BracketAfterPhotos(t2, x2).Some? {
      BracketAgree(t2, x2, t1, x1, |t2| - x2);
    }
  }

  lemma NumberEndSuffix(t1: string, x1: nat, t2: string, x2: nat)
    requires SameSuffix(t1, x1, t2, x2)
    ensures NumberEnd(t2, x2) == NumberEnd(t1, x1) - x1 + x2
  {
    SuffixAgree(t1, x1, t2, x2);
    NumberEndAgree(t1, x1, t2, x2, |t1| - x1);
  }

  /** What a coordinate match reads after its anchor: where the number starts and ends. */
  function CoordinateTail(key: string, t: string, a: nat): Option<(nat, nat)>
    requires a <= |t|
  {
    match FirstNumberKey(JavaScript, key, t, a)
    case None => None
    case Some(k) =>
      var v := NumberAfter(JavaScript, key, t, k).value;
      Some((v, NumberEnd(t, v)))
  }

  lemma CoordinateMatchIs(id: string, key: string, t: string, p: nat)
    ensures CoordinateMatch(id, key, t, p) ==
      match AnchorEnd(Quoted(JavaScript, id), t, p)
      case None => None
      case Some(a) =>
        match CoordinateTail(key, t, a)
        case None => None
        case Some((v, e)) => Some(Hit(p, [v], e))
  {
  }

  lemma CoordinateTailSuffix(key: string, t1: string, a1: nat, t2: string, a2: nat)
    requires SameSuffix(t1, a1, t2, a2)
    ensures var c1, c2 := CoordinateTail(key, t1, a1), CoordinateTail(key, t2, a2);
      c1.None? == c2.None? &&
      (c1.Some? ==> c2.value.0 == c1.value.0 - a1 + a2 && c2.value.1 == c1.value.1 - a1 + a2)
  {
    FirstNumberKeySuffix(JavaScript, key, t1, a1, t2, a2);
    var k1 := FirstNumberKey(JavaScript, key, t1, a1);
    if k1.Some? {
      var k := k1.value;
      SuffixAt(t1, a1, t2, a2, k);
      NumberAfterSuffix(JavaScript, key, t1, k, t2, k - a1 + a2);
      var v := NumberAfter(JavaScript, key, t1, k).value;
      SuffixAt(t1, a1, t2, a2, v);
      NumberEndSuffix(t1, v, t2, v - a1 + a2);
    }
  }

  lemma CoordinateMoved(id: string, key: string, t1: string, x1: nat, t2: string, x2: nat)
    requires x1 <= |t1| && x2 <= |t2|
    requires ShiftedBy(AnchorEnd(Quoted(JavaScript, id), t1, x1), AnchorEnd(Quoted(JavaScript, id), t2, x2), x2 - x1)
    requires AnchorEnd(Quoted(JavaScript, id), t1, x1).Some? ==>
      var a1, a2 := AnchorEnd(Quoted(JavaScript, id), t1, x1).value, AnchorEnd(Quoted(JavaScript, id), t2, x2).value;
      var c1, c2 := CoordinateTail(key, t1, a1), CoordinateTail(key, t2, a2);
      c1.None? == c2.None? &&
      (c1.Some? ==> c2.value.0 == c1.value.0 - a1 + a2 && c2.value.1 == c1.value.1 - a1 + a2)
    ensures OptMoved(CoordinateMatch(id, key, t1, x1), CoordinateMatch(id, key, t2, x2), x2 - x1)
  {
    CoordinateMatchIs(id, key, t1, x1);
    CoordinateMatchIs(id, key, t2, x2);
  }

  /** A coordinate match depends only on the text from its start on. */
  lemma CoordinateSuffix(id: string, key: string, t1: string, x1: nat, t2: string, x2: nat)
    requires SameSuffix(t1, x1, t2, x2)
    ensures OptMoved(CoordinateMatch(id, key, t1, x1), CoordinateMatch(id, key, t2, x2), x2 - x1)
  {
    var anchor := Quoted(JavaScript, id);
    AnchorSuffix(anchor, t1, x1, t2, x2);
    var a1 := AnchorEnd(anchor, t1, x1);
    if a1.Some? {
      SuffixAt(t1, x1, t2, x2, a1.value);
      CoordinateTailSuffix(key, t1, a1.value, t2, a1.value - x1 + x2);
    }
    CoordinateMoved(id, key, t1, x1, t2, x2);
  }

  /** What a photo-list match reads after its anchor: where the list starts and where its `]` is. */
  function PhotoListTail(t: string, a: nat): Option<(nat, nat)>
    requires a <= |t|
  {
    match FirstPhotosKey(t, a)
    case None => None
    case Some(k) =>
      var b := BracketAfterPhotos(t, k).value;
      match Find(t, b, "]")
      case None => None
      case Some(c) => Some((b, c))
  }

  lemma PhotoListMatchIs(id: string, t: string, p: nat)
    ensures PhotoListMatch(id, t, p) ==
      match AnchorEnd(Quoted(JavaScript, id), t, p)
      case None => None
      case Some(a) =>
        match PhotoListTail(t, a)
        case None => None
        case Some((b, c)) => Some(Hit(p, [b], c + 1))
  {
  }

  lemma PhotoListTailSuffix(t1: string, a1: nat, t2: string, a2: nat)
    requires SameSuffix(t1, a1, t2, a2)
    ensures var c1, c2 := PhotoListTail(t1, a1), PhotoListTail(t2, a2);
      c1.None? == c2.None? &&
      (c1.Some? ==> c2.value.0 == c1.value.0 - a1 + a2 && c2.value.1 == c1.value.1 - a1 + a2)
  {
    FirstPhotosKeySuffix(t1, a1, t2, a2);
    var k1 := FirstPhotosKey(t1, a1);
    if k1.Some? {
      var k := k1.value;
      SuffixAt(t1, a1, t2, a2, k);
      BracketSuffix(t1, k, t2, k - a1 + a2);
      var b := BracketAfterPhotos(t1, k).value;
      SuffixAt(t1, a1, t2, a2, b);
      FindSuffix(t1, b, t2, b - a1 + a2, "]");
    }
  }

  lemma PhotoListMoved(id: string, t1: string, x1: nat, t2: string, x2: nat)
    requires x1 <= |t1| && x2 <= |t2|
    requires ShiftedBy(AnchorEnd(Quoted(JavaScript, id), t1, x1), AnchorEnd(Quoted(JavaScript, id), t2, x2), x2 - x1)
    requires AnchorEnd(Quoted(JavaScript, id), t1, x1).Some? ==>
      var a1, a2 := AnchorEnd(Quoted(JavaScript, id), t1, x1).value, AnchorEnd(Quoted(JavaScript, id), t2, x2).value;
      var c1, c2 := PhotoListTail(t1, a1), PhotoListTail(t2, a2);
      c1.None? == c2.None? &&
      (c1.Some? ==> c2.value.0 == c1.value.0 - a1 + a2 && c2.value.1 == c1.value.1 - a1 + a2)
    ensures OptMoved(PhotoListMatch(id, t1, x1), PhotoListMatch(id, t2, x2), x2 - x1)
  {
    PhotoListMatchIs(id, t1, x1);
    PhotoListMatchIs(id, t2, x2);
  }

  /** A photo-list match depends only on the text from its start on. */
  lemma PhotoListSuffix(id: string, t1: string, x1: nat, t2: string, x2: nat)
    requires SameSuffix(t1, x1, t2, x2)
    ensures OptMoved(PhotoListMatch(id, t1, x1), PhotoListMatch(id, t2, x2), x2 - x1)
  {
    var anchor := Quoted(JavaScript, id);
    AnchorSuffix(anchor, t1, x1, t2, x2);
    var a1 := AnchorEnd(anchor, t1, x1);
    if a1.Some? {
      SuffixAt(t1, x1, t2, x2, a1.value);
      PhotoListTailSuffix(t1, a1.value, t2, a1.value - x1 + x2);
    }
    PhotoListMoved(id, t1, x1, t2, x2);
  }
}

/**
 * update-photos.mjs run a second time on its own output. One entry's pass
 * writes `photos: [<list>]` with a list that holds no `]`, so on the second
 * run the same anchor finds the same `photos:` key and the list it wrote,
 * and writes the same list again: the text does not change and the entry is
 * not counted.
 */
module PhotoReruns {
  import opened Common
  import opened Text
  import opened Engine
  import opened Patterns
  import opened Rewrite
  import opened Spans
  import opened Locality
  import opened Scripts
  import opened CoordinateReruns

  /** Urls that a `$1...$2` template copies as they are and that cannot close the list early. */
  predicate PlainUrls(urls: seq<string>) {
    forall u :: u in urls ==> Lacks(u, '$') && Lacks(u, ']')
  }

  // ---------------------------------------------- the rest of a global pass

  lemma PhotoListBeyond(id: string, urls: seq<string>, t: string, x: nat)
    requires x > |t|
    ensures Matches(PhotoList(id, urls), t)(x).None?
  {
    assert AnchorEnd(Quoted(JavaScript, id), t, x).None?;
  }

  /** Two matches at corresponding places of equal suffixes are rendered alike. */
  lemma PhotoListRenderMoved(id: string, urls: seq<string>, t1: string, t2: string, h1: Hit, h2: Hit)
    requires PlainUrls(urls) && SameSuffix(t1, h1.start, t2, h2.start)
    requires WellFormed(PhotoList(id, urls), t1, h1) && WellFormed(PhotoList(id, urls), t2, h2)
    requires Moved(h1, h2, h2.start - h1.start)
    ensures Renders(PhotoList(id, urls), t1)(h1) == Renders(PhotoList(id, urls), t2)(h2)
  {
    PhotoListRender(id, urls, t1, h1);
    PhotoListRender(id, urls, t2, h2);
    SuffixFrom(t1, h1.start, t2, h2.start, h1.start, h1.cuts[0]);
    SuffixFrom(t1, h1.start, t2, h2.start, h1.end - 1, h1.end);
  }

  lemma PhotoListSuffixAnywhere(id: string, urls: seq<string>, t: string, i: nat, u: string, x: nat)
    requires PlainUrls(urls) && SameSuffix(t, i, u, 0) && i <= x
    ensures var r := PhotoList(id, urls);
      && OptMoved(Matches(r, t)(x), Matches(r, u)(x - i + 0), 0 - i)
      && (Matches(r, t)(x).Some? ==> Renders(r, t)(Matches(r, t)(x).value) == Renders(r, u)(Matches(r, u)(x - i + 0).value))
  {
    if x <= |t| {
      SuffixAt(t, i, u, 0, x);
      PhotoListSuffix(id, t, x, u, x - i);
      var r := PhotoList(id, urls);
      var o1, o2 := Matches(r, t)(x), Matches(r, u)(x - i + 0);
      assert o1 == PhotoListMatch(id, t, x) && o2 == PhotoListMatch(id, u, x - i);
      assert OptMoved(o1, o2, 0 - i);
      if o1.Some? {
        PhotoListRenderMoved(id, urls, t, u, o1.value, o2.value);
        assert Renders(r, t)(o1.value) == Renders(r, u)(o2.value);
      }
    } else {
      assert |u| == |t| - i;
      PhotoListBeyond(id, urls, t, x);
      PhotoListBeyond(id, urls, u, x - i);
    }
  }

  /** A photo-list pass reports the same matches in a text from `i` on as in its suffix from `i`. */
  lemma PhotoListMirrors(id: string, urls: seq<string>, t: string, i: nat)
    requires PlainUrls(urls) && i <= |t|
    ensures var r := PhotoList(id, urls);
      Mirrors(Matches(r, t), Renders(r, t), i, Matches(r, t[i..]), Renders(r, t[i..]), 0)
  {
    var r := PhotoList(id, urls);
    var u := t[i..];
    SuffixOfItself(t, i);
    forall x: nat | i <= x
      ensures OptMoved(Matches(r, t)(x), Matches(r, u)(x - i + 0), 0 - i)
      ensures Matches(r, t)(x).Some? ==> Renders(r, t)(Matches(r, t)(x).value) == Renders(r, u)(Matches(r, u)(x - i + 0).value)
    {
      PhotoListSuffixAnywhere(id, urls, t, i, u, x);
    }
    MirrorsIntro(Matches(r, t), Renders(r, t), i, Matches(r, u), Renders(r, u), 0);
  }

  /** What a photo-list pass makes of a text from `i` on is what it makes of the suffix from `i`. */
  lemma PhotoListPassFrom(id: string, urls: seq<string>, t: string, i: nat)
    requires PlainUrls(urls) && i <= |t|
    ensures var r := PhotoList(id, urls);
      Advances(Matches(r, t), |t|) && ReplaceFrom(Matches(r, t), Renders(r, t), t, i) == ReplaceAll(r, t[i..])
  {
    var r := PhotoList(id, urls);
    var u := t[i..];
    MatchesAdvance(r, t);
    MatchesAdvance(r, u);
    SuffixOfItself(t, i);
    PhotoListMirrors(id, urls, t, i);
    ReplaceFromMirrored(Matches(r, t), Renders(r, t), t, i, i, Matches(r, u), Renders(r, u), u, 0, 0);
  }

  // ------------------------------------------------------ the written list

  lemma {:induction false} JoinCommaLacks(urls: seq<string>, ch: char)
    requires ch != '\n' && ch != ' ' && ch != '\'' && ch != ','
    requires forall u :: u in urls ==> Lacks(u, ch)
    ensures Lacks(JoinComma(urls), ch)
    decreases |urls|
  {
    if |urls| > 0 {
      assert urls[0] in urls;
      var line := PhotoLine(urls[0]);
      assert forall k :: 0 <= k < |line| ==> line[k] != ch by {
        assert line == "\n      '" + urls[0] + "'";
      }
      if |urls| > 1 {
        assert forall u :: u in urls[1..] ==> u in urls;
        JoinCommaLacks(urls[1..], ch);
      }
    }
  }

  /** The list update-photos.mjs writes holds no `]` when no url does. */
  lemma PhotoListBodyLacksBracket(urls: seq<string>)
    requires PlainUrls(urls)
    ensures Lacks(PhotoListBody(urls), ']')
  {
    JoinCommaLacks(urls, ']');
  }

  /** The output around a written list: kept up to the list, then the list and its `]`. */
  lemma ListWritten(t: string, b: nat, body: string, rest: string, o: string)
    requires b <= |t| && Lacks(body, ']')
    requires o == t[..b] + (body + "]") + rest
    ensures Agree(o, 0, t, 0, b) && Agree(t, 0, o, 0, b)
    ensures Find(o, b, "]") == Some(b + |body|)
    ensures o[b + |body| + 1..] == rest
  {
    assert o[..b] == t[..b];
    PrefixAgree(o, t, b);
    PrefixAgree(t, o, b);
    forall j | b <= j < b + |body|
      ensures !OccursAt(o, j, "]")
    {
      assert o[j] == body[j - b];
      assert o[j..j + 1][0] == o[j];
    }
    assert o[b + |body|] == ']';
    assert o[b + |body|..b + |body| + 1] == "]";
    FindIs(o, b, "]", b + |body|);
  }

  // ------------------------------------------------- the match in the output

  /** The anchor, key, list start and closing bracket of a photo-list match. */
  lemma PhotoListParts(id: string, t: string, p: nat) returns (a: nat, k: nat, b: nat, c: nat)
    requires PhotoListMatch(id, t, p).Some?
    ensures AnchorEnd(Quoted(JavaScript, id), t, p) == Some(a)
    ensures FirstPhotosKey(t, a) == Some(k) && BracketAfterPhotos(t, k) == Some(b)
    ensures Find(t, b, "]") == Some(c)
    ensures PhotoListMatch(id, t, p) == Some(Hit(p, [b], c + 1))
  {
    a := AnchorEnd(Quoted(JavaScript, id), t, p).value;
    k := FirstPhotosKey(t, a).value;
    b := BracketAfterPhotos(t, k).value;
    c := Find(t, b, "]").value;
  }

  lemma PhotoListTailFrom(t: string, a: nat, k: nat, b: nat, c: nat)
    requires a <= |t| && FirstPhotosKey(t, a) == Some(k) && BracketAfterPhotos(t, k) == Some(b)
    requires Find(t, b, "]") == Some(c)
    ensures PhotoListTail(t, a) == Some((b, c))
  {
  }

  lemma PhotoListMatchFrom(id: string, t: string, p: nat, a: nat, b: nat, c: nat)
    requires AnchorEnd(Quoted(JavaScript, id), t, p) == Some(a)
    requires PhotoListTail(t, a) == Some((b, c))
    ensures PhotoListMatch(id, t, p) == Some(Hit(p, [b], c + 1))
  {
    PhotoListMatchIs(id, t, p);
  }

  /** The `[` after a `photos:` key comes before any later `photos:` key. */
  lemma BracketBeforeKey(s: string, j: nat, k: nat)
    requires j < k && BracketAfterPhotos(s, j).Some? && OccursAt(s, k, "photos:")
    ensures BracketAfterPhotos(s, j).value <= k
  {
    assert KeyWord("photos:");
    KeysApart("photos:", s, j, k);
    assert s[k] == s[k..k + 7][0] == 'p';
  }

  /** A `photos:` key absent from the input before the kept key stays absent from the output. */
  lemma NoNearerPhotosKey(t: string, o: string, k: nat, b: nat, j: nat)
    requires Agree(o, 0, t, 0, b) && j < k < b && OccursAt(o, k, "photos:")
    requires BracketAfterPhotos(t, j).None?
    ensures BracketAfterPhotos(o, j).None?
  {
    if BracketAfterPhotos(o, j).Some? {
      BracketBeforeKey(o, j, k);
      AgreeWithin(o, 0, t, 0, b, j, k - j);
      BracketAgree(o, j, t, j, k - j);
      assert false;
    }
  }

  /** The nearest `photos: [` after the anchor is still the nearest when the text is kept through its `[`. */
  lemma PhotosKeyKept(t: string, o: string, a: nat, k: nat, b: nat)
    requires Agree(o, 0, t, 0, b) && Agree(t, 0, o, 0, b)
    requires a <= |t| && a <= |o| && FirstPhotosKey(t, a) == Some(k) && BracketAfterPhotos(t, k) == Some(b)
    ensures FirstPhotosKey(o, a) == Some(k) && BracketAfterPhotos(o, k) == Some(b)
  {
    AgreeWithin(t, 0, o, 0, b, k, b - k);
    BracketAgree(t, k, o, k, b - k);
    forall j | a <= j < k
      ensures BracketAfterPhotos(o, j).None?
    {
      NoNearerPhotosKey(t, o, k, b, j);
    }
    FirstPhotosKeyIs(o, a, k);
  }

  /** A text kept up to a match's list, with a `]` after it, still matches at the same place. */
  lemma PhotoListKeptMatch(id: string, t: string, o: string, p: nat, b: nat, c: nat)
    requires PhotoListMatch(id, t, p).Some? && PhotoListMatch(id, t, p).value.cuts[0] == b
    requires Agree(o, 0, t, 0, b) && Agree(t, 0, o, 0, b) && Find(o, b, "]") == Some(c)
    ensures PhotoListMatch(id, o, p) == Some(Hit(p, [b], c + 1))
  {
    var a, k, _, _ := PhotoListParts(id, t, p);
    AgreeWithin(t, 0, o, 0, b, p, b - p);
    AnchorAgree(Quoted(JavaScript, id), t, p, o, p, b - p);
    PhotosKeyKept(t, o, a, k, b);
    PhotoListTailFrom(o, a, k, b, c);
    PhotoListMatchFrom(id, o, p, a, b, c);
  }

  /** An anchor before a match, ending before its `id:`, would have matched as well. */
  lemma PhotoListSomeAt(id: string, t: string, q: nat, aq: nat, p: nat)
    requires AnchorEnd(Quoted(JavaScript, id), t, q) == Some(aq) && aq <= p
    requires PhotoListMatch(id, t, p).Some?
    ensures PhotoListMatch(id, t, q).Some?
  {
    var a, k, b, c := PhotoListParts(id, t, p);
    assert FirstPhotosKey(t, aq).Some?;
    var k' := FirstPhotosKey(t, aq).value;
    assert k' <= k;
    var b' := BracketAfterPhotos(t, k').value;
    if k' < k {
      BracketBeforeKey(t, k', k);
    }
    assert Find(t, b', "]").Some?;
  }

  /**
   * Before the first match of a pass, its output has no match either: an
   * anchor there would end before the first match's `id:` and would already
   * have matched in the input.
   */
  lemma PhotoListNoneBefore(id: string, t: string, o: string, p: nat, b: nat, q: nat)
    requires Lacks(id, ':') && q < p && Agree(o, 0, t, 0, b)
    requires PhotoListMatch(id, t, p).Some? && PhotoListMatch(id, t, p).value.cuts[0] == b
    requires PhotoListMatch(id, t, q).None?
    ensures PhotoListMatch(id, o, q).None?
  {
    var anchor := Quoted(JavaScript, id);
    var ap, k, b', c := PhotoListParts(id, t, p);
    var x := QuotedAnchorParts(JavaScript, id, t, p);
    AgreeWithin(o, 0, t, 0, b, p, 3);
    OccursAgree(t, p, o, p, 3, "id:");
    if AnchorEnd(anchor, o, q).Some? {
      var a := AnchorEnd(anchor, o, q).value;
      AnchorsApart(JavaScript, id, o, q, p);
      AgreeWithin(o, 0, t, 0, b, q, a - q);
      AnchorAgree(anchor, o, q, t, q, a - q);
      PhotoListSomeAt(id, t, q, a, p);
      assert false;
    }
  }

  /** `PhotoListNoneBefore`, stated for the matcher of a pass. */
  lemma PhotoListNoneBeforeKept(id: string, urls: seq<string>, t: string, o: string, p: nat, b: nat, q: nat)
    requires Lacks(id, ':') && q < p && Agree(o, 0, t, 0, b)
    requires Matches(PhotoList(id, urls), t)(p).Some? && Matches(PhotoList(id, urls), t)(p).value.cuts[0] == b
    requires Matches(PhotoList(id, urls), t)(q).None?
    ensures Matches(PhotoList(id, urls), o)(q).None?
  {
    var r := PhotoList(id, urls);
    assert Matches(r, t)(p) == PhotoListMatch(id, t, p);
    assert Matches(r, t)(q) == PhotoListMatch(id, t, q);
    PhotoListNoneBefore(id, t, o, p, b, q);
    assert Matches(r, o)(q) == PhotoListMatch(id, o, q);
  }

  // ------------------------------------------------- a photo-list pass re-run

  /** A photo-list match is replaced by its prefix, the new list and the closing `]`. */
  lemma PhotoListWrites(id: string, urls: seq<string>, t: string, h: Hit)
    requires PlainUrls(urls) && WellFormed(PhotoList(id, urls), t, h)
    requires BracketedList(t, h.cuts[0], h.end)
    ensures Renders(PhotoList(id, urls), t)(h) == t[h.start..h.cuts[0]] + (PhotoListBody(urls) + "]")
  {
    PhotoListRender(id, urls, t, h);
    assert t[h.end - 1..h.end] == "]";
    var g, body := t[h.start..h.cuts[0]], PhotoListBody(urls);
    assert g + body + "]" == g + (body + "]");
  }

  /** The leftmost match of a photo-list pass is replaced, and the pass goes on after its `]`. */
  lemma PhotoListFirstStep(id: string, urls: seq<string>, t: string, p: nat)
    requires PlainUrls(urls)
    requires Matches(PhotoList(id, urls), t)(p).Some?
    requires forall q: nat :: q < p ==> Matches(PhotoList(id, urls), t)(q).None?
    ensures var h := Matches(PhotoList(id, urls), t)(p).value;
      ReplaceAll(PhotoList(id, urls), t)
        == t[..h.cuts[0]] + (PhotoListBody(urls) + "]") + ReplaceAll(PhotoList(id, urls), t[h.end..])
  {
    var r := PhotoList(id, urls);
    var m := Matches(r, t);
    var h := m(p).value;
    MatchesAdvance(r, t);
    ReplaceFromFirst(m, Renders(r, t), t, 0, p);
    PhotoListPassFrom(id, urls, t, h.end);
    assert m(p) == PhotoListMatch(id, t, p);
    PhotoListMatchFacts(id, t, p);
    PhotoListWrites(id, urls, t, h);
    var tail := ReplaceFrom(m, Renders(r, t), t, h.end);
    KeepThenWrite(t, p, h.cuts[0], PhotoListBody(urls) + "]", tail);
  }

  /**
   * A text kept up to the list of a pass's first match, with a `]` after it,
   * has its first match at the same place, with the same list start.
   */
  lemma PhotoListFirstKept(id: string, urls: seq<string>, t: string, p: nat, o: string)
    requires Lacks(id, ':')
    requires Matches(PhotoList(id, urls), t)(p).Some?
    requires forall q: nat :: q < p ==> Matches(PhotoList(id, urls), t)(q).None?
    requires var b := Matches(PhotoList(id, urls), t)(p).value.cuts[0];
      Agree(o, 0, t, 0, b) && Agree(t, 0, o, 0, b) && Find(o, b, "]").Some?
    ensures var b := Matches(PhotoList(id, urls), t)(p).value.cuts[0];
      Matches(PhotoList(id, urls), o)(p) == Some(Hit(p, [b], Find(o, b, "]").value + 1))
    ensures forall q: nat :: q < p ==> Matches(PhotoList(id, urls), o)(q).None?
  {
    var r := PhotoList(id, urls);
    var b := Matches(r, t)(p).value.cuts[0];
    forall q: nat | q < p
      ensures Matches(r, o)(q).None?
    {
      PhotoListNoneBeforeKept(id, urls, t, o, p, b, q);
    }
    PhotoListKeptMatch(id, t, o, p, b, Find(o, b, "]").value);
  }

  /**
   * The second run of a pass over its own output: with the first match's
   * list written and the rest already settled, nothing changes.
   */
  lemma PhotoListSecondPass(id: string, urls: seq<string>, t: string, p: nat, rest: string, o: string)
    requires Lacks(id, ':') && PlainUrls(urls)
    requires Matches(PhotoList(id, urls), t)(p).Some?
    requires forall q: nat :: q < p ==> Matches(PhotoList(id, urls), t)(q).None?
    requires ReplaceAll(PhotoList(id, urls), rest) == rest
    requires o == t[..Matches(PhotoList(id, urls), t)(p).value.cuts[0]] + (PhotoListBody(urls) + "]") + rest
    ensures ReplaceAll(PhotoList(id, urls), o) == o
  {
    var r := PhotoList(id, urls);
    var b := Matches(r, t)(p).value.cuts[0];
    var body := PhotoListBody(urls);
    PhotoListBodyLacksBracket(urls);
    ListWritten(t, b, body, rest, o);
    PhotoListFirstKept(id, urls, t, p, o);
    PhotoListFirstStep(id, urls, o, p);
    assert Matches(r, o)(p).value.end == b + |body| + 1;
    assert o[..b] == t[..b];
  }

  /**
   * One entry of update-photos.mjs, run again on its own output, changes
   * nothing: every match is rewritten to the list it now holds. This needs
   * the landmark id to have no colon and the urls to have no `$` and no `]`.
   */
  lemma {:induction false} PhotoListPassIdempotent(id: string, urls: seq<string>, t: string)
    requires Lacks(id, ':') && PlainUrls(urls)
    ensures var r := PhotoList(id, urls);
      ReplaceAll(r, ReplaceAll(r, t)) == ReplaceAll(r, t)
    decreases |t|
  {
    var r := PhotoList(id, urls);
    var m := Matches(r, t);
    MatchesAdvance(r, t);
    match Leftmost(m, |t|, 0)
    case None =>
      assert ReplaceAll(r, t) == t;
    case Some(h) =>
      var u := t[h.end..];
      PhotoListFirstStep(id, urls, t, h.start);
      PhotoListPassIdempotent(id, urls, u);
      PhotoListSecondPass(id, urls, t, h.start, ReplaceAll(r, u), ReplaceAll(r, t));
  }
}

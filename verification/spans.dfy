/**
 * What a match of each script's pattern is made of, and what replacing it
 * changes: the anchor and every character up to the value are kept, and
 * only the value itself is rewritten.
 */
module Spans {
  import opened Common
  import opened Text
  import opened JsRegExp
  import opened Engine
  import opened Patterns

  /** `t[lo..hi]` is a non-empty maximal run of `[\d.-]`. */
  predicate NumberRun(t: string, lo: nat, hi: nat) {
    && lo < hi <= |t|
    && (forall i :: lo <= i < hi ==> IsNumberChar(t[i]))
    && (hi == |t| || !IsNumberChar(t[hi]))
  }

  /** `k` is the nearest position at or after `a` where `<key>\s*` is followed by a number starting at `v`. */
  predicate NearestNumberKey(d: Dialect, key: string, t: string, a: nat, k: nat, v: nat) {
    && a <= k
    && NumberAfter(d, key, t, k) == Some(v)
    && forall j :: a <= j < k ==> NumberAfter(d, key, t, j).None?
  }

  // ---------------------------------------------------- update-coordinates.ts

  /**
   * One pass of update-coordinates.ts matches at `p` exactly when the anchor
   * is there and some `<key>\s*[\d.-]` follows it; the value replaced is the
   * maximal number run after the nearest such key, and the replacement keeps
   * everything else.
   */
  lemma CoordinateMatchShape(id: string, key: string, value: string, t: string, p: nat)
    ensures var a := AnchorEnd(Quoted(JavaScript, id), t, p);
      MatchAt(Coordinate(id, key, value), t, p).Some? <==>
        a.Some? && exists k :: a.value <= k && NumberAfter(JavaScript, key, t, k).Some?
    ensures var m := MatchAt(Coordinate(id, key, value), t, p);
      m.Some? ==>
        var h := m.value;
        var c := h.cuts[0];
        && (exists k :: NearestNumberKey(JavaScript, key, t, AnchorEnd(Quoted(JavaScript, id), t, p).value, k, c))
        && NumberRun(t, c, h.end)
        && t[..p] + Render(Coordinate(id, key, value), t, h) + t[h.end..] == Splice(t, c, h.end, value)
  {
    var m := MatchAt(Coordinate(id, key, value), t, p);
    assert m == CoordinateMatch(id, key, t, p);
    CoordinateMatchFacts(id, key, t, p);
    if m.Some? {
      CoordinateRender(id, key, value, t, m.value);
    }
  }

  lemma CoordinateMatchFacts(id: string, key: string, t: string, p: nat)
    ensures var a := AnchorEnd(Quoted(JavaScript, id), t, p);
      CoordinateMatch(id, key, t, p).Some? <==>
        a.Some? && exists k :: a.value <= k && NumberAfter(JavaScript, key, t, k).Some?
    ensures var m := CoordinateMatch(id, key, t, p);
      m.Some? ==>
        && |m.value.cuts| == 1 && m.value.start == p
        && (exists k :: NearestNumberKey(JavaScript, key, t, AnchorEnd(Quoted(JavaScript, id), t, p).value, k, m.value.cuts[0]))
        && NumberRun(t, m.value.cuts[0], m.value.end)
  {
    var a := AnchorEnd(Quoted(JavaScript, id), t, p);
    if a.Some? {
      var f := FirstNumberKey(JavaScript, key, t, a.value);
      if f.Some? {
        var v := NumberAfter(JavaScript, key, t, f.value).value;
        assert NearestNumberKey(JavaScript, key, t, a.value, f.value, v);
      }
    }
  }

  /** Replacing a coordinate match rewrites its number run and nothing else. */
  lemma CoordinateRender(id: string, key: string, value: string, t: string, h: Hit)
    requires WellFormed(Coordinate(id, key, value), t, h)
    ensures t[..h.start] + Render(Coordinate(id, key, value), t, h) + t[h.end..] == Splice(t, h.cuts[0], h.end, value)
  {
    JoinSlices(t, 0, h.start, h.cuts[0]);
  }

  // ----------------------------------------------------- fix-coordinates.py

  /**
   * fix-coordinates.py: a match holds the anchor, the nearest `lat:` number
   * after it and the nearest `lng:` number after the lat number (not after
   * the anchor). The replacement puts the id back where it was read, so the
   * result differs from the input only in the two number runs.
   */
  lemma PairMatchShape(id: string, lat: string, lng: string, t: string, p: nat)
    ensures var m := MatchAt(CoordinatePair(id, lat, lng), t, p);
      m.Some? ==>
        var h := m.value;
        var a := AnchorEnd(Quoted(Python, id), t, p);
        && a.Some?
        && (exists k :: NearestNumberKey(Python, "lat:", t, a.value, k, h.cuts[1]))
        && NumberRun(t, h.cuts[1], h.cuts[2])
        && (exists k :: NearestNumberKey(Python, "lng:", t, h.cuts[2], k, h.cuts[3]))
        && NumberRun(t, h.cuts[3], h.end)
        && t[..p] + Render(CoordinatePair(id, lat, lng), t, h) + t[h.end..]
           == t[..h.cuts[1]] + lat + t[h.cuts[2]..h.cuts[3]] + lng + t[h.end..]
  {
    var m := MatchAt(CoordinatePair(id, lat, lng), t, p);
    assert m == PairMatch(id, t, p);
    PairMatchFacts(id, t, p);
    if m.Some? {
      PairRender(id, lat, lng, t, m.value);
    }
  }

  lemma PairMatchFacts(id: string, t: string, p: nat)
    ensures var m := PairMatch(id, t, p);
      m.Some? ==>
        var h := m.value;
        var a := AnchorEnd(Quoted(Python, id), t, p);
        && a.Some? && |h.cuts| == 4 && h.start == p
        && h.cuts[0] == a.value - 1 - |id| && OccursAt(t, h.cuts[0], id)
        && (exists k :: NearestNumberKey(Python, "lat:", t, a.value, k, h.cuts[1]))
        && NumberRun(t, h.cuts[1], h.cuts[2])
        && (exists k :: NearestNumberKey(Python, "lng:", t, h.cuts[2], k, h.cuts[3]))
        && NumberRun(t, h.cuts[3], h.end)
  {
    PairAnchorFacts(id, t, p);
    PairLatFacts(id, t, p);
    PairLngFacts(id, t, p);
  }

  lemma PairAnchorFacts(id: string, t: string, p: nat)
    ensures var m := PairMatch(id, t, p);
      m.Some? ==>
        var a := AnchorEnd(Quoted(Python, id), t, p);
        && a.Some? && |m.value.cuts| == 4 && m.value.start == p
        && m.value.cuts[0] == a.value - 1 - |id| && OccursAt(t, m.value.cuts[0], id)
  {
  }

  lemma PairLatFacts(id: string, t: string, p: nat)
    ensures var m := PairMatch(id, t, p);
      m.Some? ==>
        && (exists k :: NearestNumberKey(Python, "lat:", t, AnchorEnd(Quoted(Python, id), t, p).value, k, m.value.cuts[1]))
        && NumberRun(t, m.value.cuts[1], m.value.cuts[2])
  {
    var a := AnchorEnd(Quoted(Python, id), t, p);
    if a.Some? && FirstNumberKey(Python, "lat:", t, a.value).Some? {
      var v1 := FirstNumberKeyNearest(Python, "lat:", t, a.value);
    }
  }

  lemma PairLngFacts(id: string, t: string, p: nat)
    ensures var m := PairMatch(id, t, p);
      m.Some? ==>
        && (exists k :: NearestNumberKey(Python, "lng:", t, m.value.cuts[2], k, m.value.cuts[3]))
        && NumberRun(t, m.value.cuts[3], m.value.end)
  {
    var m := PairMatch(id, t, p);
    if m.Some? {
      var a := AnchorEnd(Quoted(Python, id), t, p).value;
      var k1 := FirstNumberKey(Python, "lat:", t, a).value;
      var e1 := NumberEnd(t, NumberAfter(Python, "lat:", t, k1).value);
      var k2 := FirstNumberKey(Python, "lng:", t, e1).value;
      var v2 := FirstNumberKeyNearest(Python, "lng:", t, e1);
      assert m.value.cuts[2] == e1 && m.value.cuts[3] == v2 && m.value.end == NumberEnd(t, v2);
      assert NearestNumberKey(Python, "lng:", t, e1, k2, v2);
    }
  }

  /** The key `FirstNumberKey` finds is the nearest one, and its number is a maximal run. */
  lemma FirstNumberKeyNearest(d: Dialect, key: string, t: string, i: nat) returns (v: nat)
    requires i <= |t| && FirstNumberKey(d, key, t, i).Some?
    ensures v == NumberAfter(d, key, t, FirstNumberKey(d, key, t, i).value).value
    ensures NearestNumberKey(d, key, t, i, FirstNumberKey(d, key, t, i).value, v)
    ensures NumberRun(t, v, NumberEnd(t, v))
  {
    v := NumberAfter(d, key, t, FirstNumberKey(d, key, t, i).value).value;
  }

  /** `m` is a pair match at `p`: the anchor ends at `a`, the numbers run over `v1..e1` and `v2..e2`. */
  predicate PairHitAt(id: string, m: Option<Hit>, p: nat, a: nat, v1: nat, e1: nat, v2: nat, e2: nat) {
    && m.Some? && m.value.start == p && m.value.end == e2 && |m.value.cuts| == 4
    && m.value.cuts[0] + 1 + |id| == a && m.value.cuts[1] == v1 && m.value.cuts[2] == e1 && m.value.cuts[3] == v2
  }

  lemma PairMatchFrom(id: string, t: string, p: nat, a: nat, k1: nat, v1: nat, e1: nat, k2: nat, v2: nat)
    requires AnchorEnd(Quoted(Python, id), t, p) == Some(a)
    requires FirstNumberKey(Python, "lat:", t, a) == Some(k1) && NumberAfter(Python, "lat:", t, k1) == Some(v1)
    requires e1 == NumberEnd(t, v1)
    requires FirstNumberKey(Python, "lng:", t, e1) == Some(k2) && NumberAfter(Python, "lng:", t, k2) == Some(v2)
    ensures PairHitAt(id, PairMatch(id, t, p), p, a, v1, e1, v2, NumberEnd(t, v2))
  {
  }

  /** The anchor end, the two keys and the two number runs of a pair match. */
  lemma PairParts(id: string, t: string, p: nat) returns (a: nat, k1: nat, v1: nat, k2: nat, v2: nat)
    requires PairMatch(id, t, p).Some?
    ensures AnchorEnd(Quoted(Python, id), t, p) == Some(a)
    ensures NearestNumberKey(Python, "lat:", t, a, k1, v1) && NumberRun(t, v1, NumberEnd(t, v1))
    ensures NearestNumberKey(Python, "lng:", t, NumberEnd(t, v1), k2, v2) && NumberRun(t, v2, NumberEnd(t, v2))
    ensures PairHitAt(id, PairMatch(id, t, p), p, a, v1, NumberEnd(t, v1), v2, NumberEnd(t, v2))
  {
    a := AnchorEnd(Quoted(Python, id), t, p).value;
    k1 := FirstNumberKey(Python, "lat:", t, a).value;
    v1 := FirstNumberKeyNearest(Python, "lat:", t, a);
    var e1 := NumberEnd(t, v1);
    k2 := FirstNumberKey(Python, "lng:", t, e1).value;
    v2 := FirstNumberKeyNearest(Python, "lng:", t, e1);
    PairMatchFrom(id, t, p, a, k1, v1, e1, k2, v2);
  }

  /** The nearest `lat:` number after `a` starts at `v1`, and the nearest `lng:` number after that run at `v2`. */
  predicate PairNumbers(t: string, a: nat, k1: nat, v1: nat, k2: nat, v2: nat) {
    && NearestNumberKey(Python, "lat:", t, a, k1, v1)
    && v1 <= |t|
    && NearestNumberKey(Python, "lng:", t, NumberEnd(t, v1), k2, v2)
  }

  /**
   * The converse of `PairMatchShape`: an anchor at `p`, the nearest `lat:`
   * number after it and the nearest `lng:` number after that run make a
   * match at `p`, cut at those places.
   */
  lemma PairMatchWhen(id: string, lat: string, lng: string, t: string, p: nat, a: nat, k1: nat, v1: nat, k2: nat, v2: nat)
    requires AnchorEnd(Quoted(Python, id), t, p) == Some(a)
    requires PairNumbers(t, a, k1, v1, k2, v2)
    ensures PairHitAt(id, MatchAt(CoordinatePair(id, lat, lng), t, p), p, a, v1, NumberEnd(t, v1), v2, NumberEnd(t, v2))
  {
    FirstNumberKeyIs(Python, "lat:", t, a, k1);
    FirstNumberKeyIs(Python, "lng:", t, NumberEnd(t, v1), k2);
    PairMatchFrom(id, t, p, a, k1, v1, NumberEnd(t, v1), k2, v2);
  }

  /** The pair pattern matches at `p` exactly when the anchor is there and both numbers follow it. */
  lemma PairMatchIff(id: string, lat: string, lng: string, t: string, p: nat)
    ensures MatchAt(CoordinatePair(id, lat, lng), t, p).Some? <==>
      && AnchorEnd(Quoted(Python, id), t, p).Some?
      && exists k1, v1, k2, v2 :: PairNumbers(t, AnchorEnd(Quoted(Python, id), t, p).value, k1, v1, k2, v2)
  {
    var anchor := AnchorEnd(Quoted(Python, id), t, p);
    if MatchAt(CoordinatePair(id, lat, lng), t, p).Some? {
      assert PairMatch(id, t, p).Some?;
      var a, k1, v1, k2, v2 := PairParts(id, t, p);
      assert PairNumbers(t, a, k1, v1, k2, v2);
    }
    if anchor.Some? && exists k1, v1, k2, v2 :: PairNumbers(t, anchor.value, k1, v1, k2, v2) {
      var k1, v1, k2, v2 :| PairNumbers(t, anchor.value, k1, v1, k2, v2);
      PairMatchWhen(id, lat, lng, t, p, anchor.value, k1, v1, k2, v2);
    }
  }

  /** Replacing a pair match rewrites its two number runs and nothing else. */
  lemma PairRender(id: string, lat: string, lng: string, t: string, h: Hit)
    requires WellFormed(CoordinatePair(id, lat, lng), t, h) && OccursAt(t, h.cuts[0], id)
    ensures t[..h.start] + Render(CoordinatePair(id, lat, lng), t, h) + t[h.end..]
         == t[..h.cuts[1]] + lat + t[h.cuts[2]..h.cuts[3]] + lng + t[h.end..]
  {
    var c0 := h.cuts[0];
    assert t[c0..c0 + |id|] == id;
    PairReassembled(t, h.start, c0, |id|, h.cuts[1], h.cuts[2], h.cuts[3], h.end, lat, lng);
  }

  /** Putting the id back between the two groups around it gives the original text. */
  lemma PairReassembled(t: string, p: nat, c0: nat, n: nat, c1: nat, c2: nat, c3: nat, e: nat, lat: string, lng: string)
    requires p <= c0 && c0 + n <= c1 <= c2 <= c3 <= e <= |t|
    ensures t[..p] + (t[p..c0] + t[c0..c0 + n] + t[c0 + n..c1] + lat + t[c2..c3] + lng) + t[e..]
         == t[..c1] + lat + t[c2..c3] + lng + t[e..]
  {
    JoinSlices(t, p, c0, c0 + n);
    JoinSlices(t, p, c0 + n, c1);
    JoinSlices(t, 0, p, c1);
  }

  // ------------------------------------------------------ update-photos.mjs

  /** Text without a `$`, which a replacement template copies as it is. */
  lemma {:induction false} PhotoListBodyLiteral(urls: seq<string>)
    requires forall u :: u in urls ==> Lacks(u, '$')
    ensures Lacks(PhotoListBody(urls), '$')
    ensures |PhotoListBody(urls)| > 0 && PhotoListBody(urls)[0] == '\n'
  {
    JoinCommaLiteral(urls);
  }

  lemma {:induction false} JoinCommaLiteral(urls: seq<string>)
    requires forall u :: u in urls ==> Lacks(u, '$')
    ensures Lacks(JoinComma(urls), '$')
    ensures |urls| > 0 ==> |JoinComma(urls)| > 0 && JoinComma(urls)[0] == '\n'
    decreases |urls|
  {
    if |urls| > 1 {
      assert forall u :: u in urls[1..] ==> u in urls;
      JoinCommaLiteral(urls[1..]);
      assert urls[0] in urls;
    } else if |urls| == 1 {
      assert urls[0] in urls;
    }
  }

  /**
   * The template `$1<body>$2` of update-photos.mjs: when no url contains `$`,
   * the two groups are put back around the body and nothing else is
   * expanded.
   */
  lemma PhotoListRender(id: string, urls: seq<string>, t: string, h: Hit)
    requires WellFormed(PhotoList(id, urls), t, h)
    requires forall u :: u in urls ==> Lacks(u, '$')
    ensures Render(PhotoList(id, urls), t, h)
      == t[h.start..h.cuts[0]] + PhotoListBody(urls) + t[h.end - 1..h.end]
  {
    var body := PhotoListBody(urls);
    var g1 := t[h.start..h.cuts[0]];
    var g2 := t[h.end - 1..h.end];
    var matched := t[h.start..h.end];
    PhotoListBodyLiteral(urls);
    var template := "$1" + body + "$2";
    assert template[0] == '$' && template[1] == '1' && template[2] == '\n';
    assert template[2..] == body + "$2";
    SubstituteAppend(body, "$2", t, h.start, matched, [g1, g2]);
    assert Substitute("$2", t, h.start, matched, [g1, g2]) == g2 by {
      assert "$2"[2..] == "";
    }
  }

  /** `t[b..e-1]` is the text between a `[` and the first `]` after it. */
  predicate BracketedList(t: string, b: nat, e: nat) {
    && 0 < b < e <= |t|
    && t[b - 1] == '[' && t[e - 1] == ']'
    && forall i :: b <= i < e - 1 ==> t[i] != ']'
  }

  /**
   * update-photos.mjs: a match keeps the anchor and everything up to and
   * including `[`, and the closing `]`; what it replaces is the text between
   * them, which holds no `]`. With `$`-free urls the result is the input
   * with exactly that text replaced by the new list.
   */
  lemma PhotoListMatchShape(id: string, urls: seq<string>, t: string, p: nat)
    requires forall u :: u in urls ==> Lacks(u, '$')
    ensures var m := MatchAt(PhotoList(id, urls), t, p);
      m.Some? ==>
        && AnchorEnd(Quoted(JavaScript, id), t, p).Some?
        && BracketedList(t, m.value.cuts[0], m.value.end)
        && t[..p] + Render(PhotoList(id, urls), t, m.value) + t[m.value.end..]
           == Splice(t, m.value.cuts[0], m.value.end - 1, PhotoListBody(urls))
  {
    var m := MatchAt(PhotoList(id, urls), t, p);
    assert m == PhotoListMatch(id, t, p);
    PhotoListMatchFacts(id, t, p);
    if m.Some? {
      PhotoListSplice(id, urls, t, m.value);
    }
  }

  /** Replacing a photo-list match rewrites the text between the brackets and nothing else. */
  lemma PhotoListSplice(id: string, urls: seq<string>, t: string, h: Hit)
    requires WellFormed(PhotoList(id, urls), t, h)
    requires forall u :: u in urls ==> Lacks(u, '$')
    ensures t[..h.start] + Render(PhotoList(id, urls), t, h) + t[h.end..]
         == Splice(t, h.cuts[0], h.end - 1, PhotoListBody(urls))
  {
    PhotoListRender(id, urls, t, h);
    SpliceBetween(t, h.start, h.cuts[0], h.end - 1, PhotoListBody(urls));
  }

  lemma SpliceBetween(t: string, s: nat, b: nat, c: nat, body: string)
    requires s <= b <= c < |t|
    ensures t[..s] + (t[s..b] + body + t[c..c + 1]) + t[c + 1..] == Splice(t, b, c, body)
  {
    JoinSlices(t, 0, s, b);
    JoinSuffix(t, c, c + 1);
  }

  lemma PhotoListMatchFacts(id: string, t: string, p: nat)
    ensures var m := PhotoListMatch(id, t, p);
      m.Some? ==>
        && |m.value.cuts| == 1 && m.value.start == p
        && AnchorEnd(Quoted(JavaScript, id), t, p).Some?
        && BracketedList(t, m.value.cuts[0], m.value.end)
  {
    var a := AnchorEnd(Quoted(JavaScript, id), t, p);
    if a.Some? {
      var f := FirstPhotosKey(t, a.value);
      if f.Some? {
        var b := BracketAfterPhotos(t, f.value).value;
        var c := Find(t, b, "]");
        if c.Some? {
          assert PhotoListMatch(id, t, p) == Some(Hit(p, [b], c.value + 1));
          forall i | b <= i < c.value
            ensures t[i] != ']'
          {
            assert !OccursAt(t, i, "]");
          }
        }
      }
    }
  }

  /** `k` is the nearest `photos:\s*[` at or after `a`, and its `[` ends before `b`. */
  predicate NearestPhotosKey(t: string, a: nat, k: nat, b: nat) {
    && a <= k
    && BracketAfterPhotos(t, k) == Some(b)
    && forall j :: a <= j < k ==> BracketAfterPhotos(t, j).None?
  }

  /** The `]` closing a bracketed list is the first `]` after its `[`. */
  lemma ClosingBracket(t: string, b: nat, e: nat)
    requires BracketedList(t, b, e)
    ensures Find(t, b, "]") == Some(e - 1)
  {
    forall j | b <= j < e - 1
      ensures !OccursAt(t, j, "]")
    {
      OccursAtIndex(t, j, "]", 0);
    }
    assert t[e - 1..e] == "]";
    FindIs(t, b, "]", e - 1);
  }

  /**
   * The converse of `PhotoListMatchShape`: an anchor at `p`, the nearest
   * `photos: [` after it and the first `]` after that make a match at `p`,
   * cut at the bracket.
   */
  lemma PhotoListMatchWhen(id: string, urls: seq<string>, t: string, p: nat, a: nat, k: nat, b: nat, e: nat)
    requires AnchorEnd(Quoted(JavaScript, id), t, p) == Some(a)
    requires NearestPhotosKey(t, a, k, b) && BracketedList(t, b, e)
    ensures var m := MatchAt(PhotoList(id, urls), t, p);
      m.Some? && m.value.start == p && |m.value.cuts| == 1 && m.value.cuts[0] == b && m.value.end == e
  {
    FirstPhotosKeyIs(t, a, k);
    ClosingBracket(t, b, e);
  }

  lemma PhotoListMatchFrom(id: string, t: string, p: nat, a: nat, k: nat, b: nat, c: nat)
    requires AnchorEnd(Quoted(JavaScript, id), t, p) == Some(a) && FirstPhotosKey(t, a) == Some(k)
    requires BracketAfterPhotos(t, k) == Some(b) && Find(t, b, "]") == Some(c)
    ensures var m := PhotoListMatch(id, t, p);
      m.Some? && m.value.start == p && |m.value.cuts| == 1 && m.value.cuts[0] == b && m.value.end == c + 1
  {
  }

  /** The photo-list pattern matches at `p` exactly when the anchor is there and a `photos: [ ... ]` follows it. */
  lemma PhotoListMatchIff(id: string, urls: seq<string>, t: string, p: nat)
    ensures MatchAt(PhotoList(id, urls), t, p).Some? <==>
      && AnchorEnd(Quoted(JavaScript, id), t, p).Some?
      && exists k, b, e :: NearestPhotosKey(t, AnchorEnd(Quoted(JavaScript, id), t, p).value, k, b) && BracketedList(t, b, e)
  {
    var anchor := AnchorEnd(Quoted(JavaScript, id), t, p);
    if MatchAt(PhotoList(id, urls), t, p).Some? {
      var m := PhotoListMatch(id, t, p);
      PhotoListMatchFacts(id, t, p);
      var k := FirstPhotosKey(t, anchor.value).value;
      var b := BracketAfterPhotos(t, k).value;
      assert m.value.cuts[0] == b;
      assert NearestPhotosKey(t, anchor.value, k, b) && BracketedList(t, b, m.value.end);
    }
    if anchor.Some? && exists k, b, e :: NearestPhotosKey(t, anchor.value, k, b) && BracketedList(t, b, e) {
      var k, b, e :| NearestPhotosKey(t, anchor.value, k, b) && BracketedList(t, b, e);
      PhotoListMatchWhen(id, urls, t, p, anchor.value, k, b, e);
    }
  }

  // ------------------------------------ update-rome-data.py / update-rome-data.mjs

  /**
   * `k` is the nearest `photos: [` at or after `a`, and `e` is just past the
   * first `],` after its bracket.
   */
  predicate PhotoBlockAt(t: string, a: nat, k: nat, e: nat) {
    && a <= k && k + 9 <= e - 2 && e <= |t|
    && OccursAt(t, k, "photos: [") && (forall j :: a <= j < k ==> !OccursAt(t, j, "photos: ["))
    && OccursAt(t, e - 2, "],") && (forall j :: k + 9 <= j < e - 2 ==> !OccursAt(t, j, "],"))
  }

  /**
   * update-rome-data.py and update-rome-data.mjs: a match keeps the anchor
   * and everything up to the nearest `photos: [` after it, and replaces the
   * text from there through the first `],` after the bracket by the block.
   */
  lemma PhotoBlockMatchShape(anchor: Anchor, block: string, t: string, p: nat)
    ensures var m := MatchAt(PhotoBlock(anchor, block), t, p);
      m.Some? ==>
        && AnchorEnd(anchor, t, p).Some?
        && PhotoBlockAt(t, AnchorEnd(anchor, t, p).value, m.value.cuts[0], m.value.end)
        && t[..p] + Render(PhotoBlock(anchor, block), t, m.value) + t[m.value.end..]
           == Splice(t, m.value.cuts[0], m.value.end, block)
  {
    var m := MatchAt(PhotoBlock(anchor, block), t, p);
    assert m == PhotoBlockMatch(anchor, t, p);
    PhotoBlockMatchFacts(anchor, t, p);
    if m.Some? {
      PhotoBlockSplice(anchor, block, t, m.value);
    }
  }

  /** Replacing a block match rewrites the text from its `photos: [` on and nothing before it. */
  lemma PhotoBlockSplice(anchor: Anchor, block: string, t: string, h: Hit)
    requires WellFormed(PhotoBlock(anchor, block), t, h)
    ensures t[..h.start] + Render(PhotoBlock(anchor, block), t, h) + t[h.end..]
         == Splice(t, h.cuts[0], h.end, block)
  {
    JoinSlices(t, 0, h.start, h.cuts[0]);
  }

  lemma PhotoBlockMatchFacts(anchor: Anchor, t: string, p: nat)
    ensures var m := PhotoBlockMatch(anchor, t, p);
      m.Some? ==>
        && |m.value.cuts| == 1 && m.value.start == p
        && AnchorEnd(anchor, t, p).Some?
        && PhotoBlockAt(t, AnchorEnd(anchor, t, p).value, m.value.cuts[0], m.value.end)
  {
  }

  /**
   * The converse of `PhotoBlockMatchShape`: an anchor at `p`, the nearest
   * `photos: [` after it and the first `],` after that make a match at `p`.
   */
  lemma PhotoBlockMatchWhen(anchor: Anchor, block: string, t: string, p: nat, a: nat, k: nat, e: nat)
    requires AnchorEnd(anchor, t, p) == Some(a) && PhotoBlockAt(t, a, k, e)
    ensures var m := MatchAt(PhotoBlock(anchor, block), t, p);
      m.Some? && m.value.start == p && |m.value.cuts| == 1 && m.value.cuts[0] == k && m.value.end == e
  {
    var c := e - 2;
    FindIs(t, a, "photos: [", k);
    FindIs(t, k + 9, "],", c);
    PhotoBlockMatchFrom(anchor, t, p, a, k, c);
  }

  lemma PhotoBlockMatchFrom(anchor: Anchor, t: string, p: nat, a: nat, k: nat, c: nat)
    requires AnchorEnd(anchor, t, p) == Some(a) && Find(t, a, "photos: [") == Some(k)
    requires k + 9 <= |t| && Find(t, k + 9, "],") == Some(c)
    ensures var m := PhotoBlockMatch(anchor, t, p);
      m.Some? && m.value.start == p && |m.value.cuts| == 1 && m.value.cuts[0] == k && m.value.end == c + 2
  {
  }

  /** The block pattern matches at `p` exactly when the anchor is there and a `photos: [ ... ],` follows it. */
  lemma PhotoBlockMatchIff(anchor: Anchor, block: string, t: string, p: nat)
    ensures MatchAt(PhotoBlock(anchor, block), t, p).Some? <==>
      AnchorEnd(anchor, t, p).Some? && exists k, e :: PhotoBlockAt(t, AnchorEnd(anchor, t, p).value, k, e)
  {
    var a := AnchorEnd(anchor, t, p);
    assert MatchAt(PhotoBlock(anchor, block), t, p) == PhotoBlockMatch(anchor, t, p);
    PhotoBlockMatchFacts(anchor, t, p);
    if a.Some? && exists k, e :: PhotoBlockAt(t, a.value, k, e) {
      var k, e :| PhotoBlockAt(t, a.value, k, e);
      PhotoBlockMatchWhen(anchor, block, t, p, a.value, k, e);
    }
  }
}

/**
 * Which record an anchor selects. Each script finds a record by the text
 * `id: '<id>'` (with some tolerance); these lemmas say exactly which record
 * ids a given table id accepts.
 */
module Anchors {
  import opened Common
  import opened Text
  import opened Patterns

  /** `id` written in the record as `id:`, the spaces `ws`, then `<q1><other><q2>`. */
  predicate QuotedRecordAt(t: string, p: nat, ws: string, q1: char, other: string, q2: char) {
    OccursAt(t, p, "id:" + ws + [q1] + other + [q2])
  }

  /** No quote character inside. */
  predicate Unquoted(s: string) {
    forall k :: 0 <= k < |s| ==> !IsQuote(s[k])
  }

  /** Two quote-free strings that both run up to a quote from the same index are equal. */
  lemma {:induction false} QuoteDelimited(t: string, i: nat, x: string, y: string)
    requires Unquoted(x) && Unquoted(y)
    requires OccursAt(t, i, x) && i + |x| < |t| && IsQuote(t[i + |x|])
    requires OccursAt(t, i, y) && i + |y| < |t| && IsQuote(t[i + |y|])
    ensures x == y
  {
    if |x| < |y| {
      NoQuoteInside(t, i, y, |x|);
      assert false;
    } else if |y| < |x| {
      NoQuoteInside(t, i, x, |y|);
      assert false;
    } else {
      assert x == t[i..i + |x|] == y;
    }
  }

  lemma NoQuoteInside(t: string, i: nat, x: string, k: nat)
    requires Unquoted(x) && OccursAt(t, i, x) && k < |x|
    ensures !IsQuote(t[i + k])
  {
    assert t[i + k] == t[i..i + |x|][k];
  }

  /**
   * update-coordinates.ts, fix-coordinates.py and update-photos.mjs: the
   * anchor `id:\s*['"]<id>['"]` accepts a record written with any run of
   * whitespace and either quote character around its id, and only the record
   * whose id is exactly `id`.
   */
  lemma QuotedAnchorSelects(d: Dialect, id: string, t: string, p: nat, ws: string, q1: char, other: string, q2: char)
    requires Unquoted(id) && Unquoted(other)
    requires QuotedRecordAt(t, p, ws, q1, other, q2)
    requires IsQuote(q1) && IsQuote(q2)
    requires forall k :: 0 <= k < |ws| ==> IsSpace(d, ws[k])
    ensures AnchorEnd(Quoted(d, id), t, p).Some? <==> id == other
  {
    var q := p + 3 + |ws|;
    QuotedRecordParts(t, p, ws, q1, other, q2);
    SpacesThenQuote(d, t, p, ws, q1);
    QuotedAnchorAt(d, id, t, p, q);
    if AnchorEnd(Quoted(d, id), t, p).Some? {
      QuoteDelimited(t, q + 1, id, other);
    }
  }

  /** The pieces of a quoted record id, each at its place. */
  lemma QuotedRecordParts(t: string, p: nat, ws: string, q1: char, other: string, q2: char)
    requires QuotedRecordAt(t, p, ws, q1, other, q2)
    ensures OccursAt(t, p, "id:") && OccursAt(t, p + 4 + |ws|, other)
    ensures forall k :: 0 <= k < |ws| ==> t[p + 3 + k] == ws[k]
    ensures t[p + 3 + |ws|] == q1 && t[p + 4 + |ws| + |other|] == q2
  {
    var w := "id:" + ws + [q1] + other + [q2];
    assert w[..3] == "id:";
    assert w[3..3 + |ws|] == ws;
    assert w[3 + |ws|] == q1;
    assert w[4 + |ws|..4 + |ws| + |other|] == other;
    assert w[4 + |ws| + |other|] == q2;
    OccursWithin(t, p, w, 0, 3);
    OccursWithin(t, p, w, 3, 3 + |ws|);
    OccursWithin(t, p, w, 3 + |ws|, 4 + |ws| + |other| + 1);
    OccursWithin(t, p, w, 4 + |ws|, 4 + |ws| + |other|);
  }

  /** `\s*` after `id:` runs over `ws` and stops at the opening quote. */
  lemma SpacesThenQuote(d: Dialect, t: string, p: nat, ws: string, q1: char)
    requires p + 3 + |ws| < |t| && IsQuote(q1) && t[p + 3 + |ws|] == q1
    requires forall k :: 0 <= k < |ws| ==> t[p + 3 + k] == ws[k] && IsSpace(d, ws[k])
    ensures SkipSpaces(d, t, p + 3) == p + 3 + |ws|
  {
    forall k | p + 3 <= k < p + 3 + |ws|
      ensures IsSpace(d, t[k])
    {
      assert t[p + 3 + (k - p - 3)] == ws[k - p - 3];
    }
    SkipRun(d, t, p + 3, p + 3 + |ws|);
  }

  /** The quoted anchor at `p`, once `\s*` is known to stop at `q`. */
  lemma QuotedAnchorAt(d: Dialect, id: string, t: string, p: nat, q: nat)
    requires OccursAt(t, p, "id:") && p + 3 <= |t| && SkipSpaces(d, t, p + 3) == q
    ensures AnchorEnd(Quoted(d, id), t, p).Some?
      <==> q + 2 + |id| <= |t| && IsQuote(t[q]) && OccursAt(t, q + 1, id) && IsQuote(t[q + 1 + |id|])
  {
  }

  /** `\s*` from `i` stops at the first non-space `q` when everything in between is a space. */
  lemma {:induction false} SkipRun(d: Dialect, t: string, i: nat, q: nat)
    requires i <= q < |t|
    requires forall k :: i <= k < q ==> IsSpace(d, t[k])
    requires !IsSpace(d, t[q])
    ensures SkipSpaces(d, t, i) == q
    decreases q - i
  {
    if i < q {
      SkipRun(d, t, i + 1, q);
    }
  }

  /** The record `id: '<other>',` as update-rome-data.py and update-rome-data.mjs expect it. */
  predicate ExactRecordAt(t: string, p: nat, other: string) {
    OccursAt(t, p, "id: '" + other + "',")
  }

  /**
   * update-rome-data.py: `id: '<id>',` selects the record only when its id is
   * exactly `id`; in particular `colosseum` does not select
   * `colosseum-memories-rome`.
   */
  lemma ExactAnchorSelects(id: string, t: string, p: nat, other: string)
    requires Unquoted(id) && Unquoted(other)
    requires ExactRecordAt(t, p, other)
    ensures AnchorEnd(Exact(id), t, p).Some? <==> id == other
  {
    var w := "id: '" + other + "',";
    assert w[5..5 + |other|] == other;
    assert w[5 + |other|] == '\'';
    OccursWithin(t, p, w, 0, |w|);
    OccursWithin(t, p, w, 5, 5 + |other|);
    if AnchorEnd(Exact(id), t, p).Some? {
      var v := "id: '" + id + "',";
      assert v[5..5 + |id|] == id;
      assert v[5 + |id|] == '\'';
      OccursWithin(t, p, v, 0, |v|);
      OccursWithin(t, p, v, 5, 5 + |id|);
      QuoteDelimited(t, p + 5, id, other);
    }
  }

  lemma ColosseumIsNotColosseumMemories(t: string, p: nat)
    requires ExactRecordAt(t, p, "colosseum-memories-rome")
    ensures AnchorEnd(Exact("colosseum"), t, p).None?
  {
    ExactAnchorSelects("colosseum", t, p, "colosseum-memories-rome");
  }

  /** The two ids agree except that `-` and `_` stand for each other. */
  predicate SameUpToDashes(id: string, other: string) {
    |id| == |other| && forall k :: 0 <= k < |id| ==> IdCharMatches(id[k], other[k])
  }

  /**
   * update-rome-data.mjs: with every `-` and `_` of the id read as `[-_]`, the
   * anchor selects exactly the records whose id equals `id` up to swapping
   * dashes and underscores; `roman_forum` selects `roman-forum`.
   */
  lemma DashLooseAnchorSelects(id: string, t: string, p: nat, other: string)
    requires Unquoted(id) && Unquoted(other)
    requires ExactRecordAt(t, p, other)
    ensures AnchorEnd(DashLoose(id), t, p).Some? <==> SameUpToDashes(id, other)
  {
    ExactRecordParts(t, p, other);
    DashLooseAt(id, t, p);
    if SameUpToDashes(id, other) {
      assert LooseIdAt(t, p + 5, id);
    }
    if AnchorEnd(DashLoose(id), t, p).Some? {
      if |id| < |other| {
        NoQuoteInside(t, p + 5, other, |id|);
        assert false;
      } else if |other| < |id| {
        LooseIdHasNoQuote(t, p + 5, id, |other|);
        assert false;
      }
    }
  }

  lemma LooseIdHasNoQuote(t: string, i: nat, id: string, k: nat)
    requires Unquoted(id) && LooseIdAt(t, i, id) && k < |id|
    ensures !IsQuote(t[i + k])
  {
    assert IdCharMatches(id[k], t[i + k]);
  }

  /** The pieces of a record id written as `id: '<other>',`, each at its place. */
  lemma ExactRecordParts(t: string, p: nat, other: string)
    requires ExactRecordAt(t, p, other)
    ensures OccursAt(t, p, "id: '") && OccursAt(t, p + 5, other) && OccursAt(t, p + 5 + |other|, "',")
    ensures forall k :: 0 <= k < |other| ==> t[p + 5 + k] == other[k]
    ensures t[p + 5 + |other|] == '\''
  {
    var w := "id: '" + other + "',";
    assert w[..5] == "id: '";
    assert w[5..5 + |other|] == other;
    assert w[5 + |other|..] == "',";
    OccursWithin(t, p, w, 0, 5);
    OccursWithin(t, p, w, 5, 5 + |other|);
    OccursWithin(t, p, w, 5 + |other|, |w|);
  }

  /** The dash-tolerant anchor at `p`. */
  lemma DashLooseAt(id: string, t: string, p: nat)
    ensures AnchorEnd(DashLoose(id), t, p).Some?
      <==> OccursAt(t, p, "id: '") && LooseIdAt(t, p + 5, id) && OccursAt(t, p + 5 + |id|, "',")
  {
  }

  lemma RomanForumMatchesRomanDashForum(t: string, p: nat)
    requires ExactRecordAt(t, p, "roman-forum")
    ensures AnchorEnd(DashLoose("roman_forum"), t, p).Some?
  {
    DashLooseAnchorSelects("roman_forum", t, p, "roman-forum");
  }
}

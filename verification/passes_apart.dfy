/**
 * The two coordinate scripts on a record that has a `lat:` and no `lng:`.
 * update-coordinates.ts patches lat and lng in two separate passes, so the
 * latitude changes on its own and the entry counts as updated;
 * fix-coordinates.py needs both keys in one match, so it leaves the record
 * as it is and does not count the entry.
 */
module PassesApart {
  import opened Common
  import opened Text
  import opened Engine
  import opened Patterns
  import opened Rewrite
  import opened Locality
  import opened CoordinateReruns
  import opened Scripts
  import opened ScriptReruns

  /** A record with a latitude and no longitude. */
  const LatOnly: string := "id: 'a', lat: 1,"
  /** The entry for it: latitude 2, longitude 3. */
  const Entry: Coordinates := Coordinates("a", "2", "3")
  /** The record with the new latitude written. */
  const LatWritten: string := LatOnly[..14] + Entry.lat + LatOnly[15..]

  /** No anchor starts after the first character of a text whose only `i` is the first one. */
  lemma AnchorOnlyFirst(d: Dialect, id: string, t: string, p: nat)
    requires 0 < p && forall j :: 0 < j < |t| ==> t[j] != 'i'
    ensures AnchorEnd(Quoted(d, id), t, p).None?
  {
    OccursAtIndex(t, p, "id:", 0);
  }

  /** A text without `n` has no `lng:` key with a number after it. */
  lemma NoLngKey(d: Dialect, t: string, i: nat)
    requires i <= |t| && forall j :: 0 <= j < |t| ==> t[j] != 'n'
    ensures FirstNumberKey(d, "lng:", t, i).None?
  {
    forall j: nat
      ensures NumberAfter(d, "lng:", t, j).None?
    {
      OccursAtIndex(t, j, "lng:", 1);
    }
  }

  /** The anchor of `LatOnly`, as both dialects read it. */
  lemma LatOnlyAnchor(d: Dialect)
    ensures AnchorEnd(Quoted(d, "a"), LatOnly, 0) == Some(7)
  {
    var t := LatOnly;
    SkipSpacesIs(d, t, 3, 4);
    assert t[..3] == "id:";
    assert t[5..6] == "a";
    assert IsQuote(t[4]) && IsQuote(t[6]);
    QuotedAnchorIs(d, "a", t, 0, 4);
  }

  /** The `lat:` key of `LatOnly` and its number. */
  lemma LatOnlyKey(d: Dialect)
    ensures FirstNumberKey(d, "lat:", LatOnly, 7) == Some(9)
    ensures NumberAfter(d, "lat:", LatOnly, 9) == Some(14)
  {
    var t := LatOnly;
    SkipSpacesIs(d, t, 13, 14);
    assert OccursAt(t, 9, "lat:");
    forall j | 7 <= j < 9
      ensures NumberAfter(d, "lat:", t, j).None?
    {
      OccursAtIndex(t, j, "lat:", 0);
    }
    FirstNumberKeyIs(d, "lat:", t, 7, 9);
  }

  lemma LatOnlyParts(d: Dialect)
    ensures AnchorEnd(Quoted(d, "a"), LatOnly, 0) == Some(7)
    ensures FirstNumberKey(d, "lat:", LatOnly, 7) == Some(9)
    ensures NumberAfter(d, "lat:", LatOnly, 9) == Some(14)
    ensures NumberEnd(LatOnly, 14) == 15
  {
    LatOnlyAnchor(d);
    LatOnlyKey(d);
    NumberEndIs(LatOnly, 14, 15);
  }

  /** The lat pass matches at the start of `LatOnly`, through the latitude, and nowhere after it. */
  lemma LatPassMatch()
    ensures Matches(LatPass(Entry), LatOnly)(0) == Some(Hit(0, [14], 15))
    ensures forall p: nat :: 15 <= p ==> Matches(LatPass(Entry), LatOnly)(p).None?
  {
    LatOnlyParts(JavaScript);
    CoordinateMatchFrom("a", "lat:", LatOnly, 0, 7, 9, 14);
    forall p: nat | 15 <= p
      ensures Matches(LatPass(Entry), LatOnly)(p).None?
    {
      AnchorOnlyFirst(JavaScript, "a", LatOnly, p);
    }
  }

  /** A replacement that starts at the beginning of the text keeps nothing in front of it. */
  lemma FromStart(t: string, c: nat, e: nat, x: string)
    requires c <= e <= |t|
    ensures t[0..0] + (t[..c] + x) + t[e..] == t[..c] + x + t[e..]
  {
    assert t[0..0] == [];
  }

  /** The lat pass finds the record and writes the new latitude. */
  lemma LatPassWrites()
    ensures ReplaceAll(LatPass(Entry), LatOnly) == LatWritten
  {
    var t := LatOnly;
    var r := LatPass(Entry);
    var m := Matches(r, t);
    var h := Hit(0, [14], 15);
    MatchesAdvance(r, t);
    LatPassMatch();
    LeftmostIs(m, |t|, 0, 0);
    SingleMatch(m, Renders(r, t), t, 0, h);
    assert Renders(r, t)(h) == t[..14] + Entry.lat;
    FromStart(t, 14, 15, Entry.lat);
  }

  /** The lng pass finds nothing and keeps the text. */
  lemma LngPassKeeps()
    ensures ReplaceAll(LngPass(Entry), LatWritten) == LatWritten
  {
    var t := LatWritten;
    var r := LngPass(Entry);
    var m := Matches(r, t);
    MatchesAdvance(r, t);
    forall p: nat
      ensures m(p).None?
    {
      var a := AnchorEnd(Quoted(JavaScript, "a"), t, p);
      if a.Some? {
        NoLngKey(JavaScript, t, a.value);
      }
    }
    NoMatchUnchanged(m, Renders(r, t), t, 0);
  }

  /** No match of the fix-coordinates.py pattern starts anywhere in `LatOnly`. */
  lemma PairMatchNone(p: nat)
    ensures PairMatch("a", LatOnly, p).None?
  {
    if p == 0 {
      LatOnlyParts(Python);
      NoLngKey(Python, LatOnly, 15);
    } else {
      AnchorOnlyFirst(Python, "a", LatOnly, p);
    }
  }

  /** fix-coordinates.py finds no match: its pattern needs a `lng:` after the latitude. */
  lemma PairFindsNothing()
    ensures ReplaceOnce(PairPass(Entry), LatOnly).1 == 0
  {
    forall p: nat
      ensures Matches(PairPass(Entry), LatOnly)(p).None?
    {
      PairMatchNone(p);
    }
  }

  /** The two passes of update-coordinates.ts write the latitude alone. */
  lemma PassesWriteLat()
    ensures PatchCoordinates(LatOnly, Entry) == LatWritten
  {
    LatPassWrites();
    LngPassKeeps();
  }

  /** update-coordinates.ts changes the latitude alone and counts the entry. */
  lemma PassesCountLatAlone()
    ensures PatchCoordinates(LatOnly, Entry) == LatWritten != LatOnly
    ensures |ChangedAmong(Trace(PatchCoordinates, LatOnly, [Entry]), 1)| == 1
  {
    PassesWriteLat();
    assert LatWritten[14] != LatOnly[14];
    OneEntryCount(PatchCoordinates, LatOnly, Entry);
  }

  /** fix-coordinates.py keeps the record and does not count the entry. */
  lemma PairCountsNothing()
    ensures FixEntry(LatOnly, Entry) == LatOnly
    ensures |MatchedAmong(Trace(FixEntry, LatOnly, [Entry]), [Entry], 1)| == 0
  {
    PairFindsNothing();
    var fs := Trace(FixEntry, LatOnly, [Entry]);
    var flags := MatchFlags(fs, [Entry]);
    FlaggedGrows(flags, 0);
    assert Flagged(flags, 0) == {};
    assert !flags[0];
  }

  /**
   * On a record without `lng:`, update-coordinates.ts changes the latitude
   * alone and counts the entry, while fix-coordinates.py changes nothing
   * and counts nothing: only the one-match script keeps the pair together.
   */
  lemma LatChangesAlone()
    ensures PatchCoordinates(LatOnly, Entry) == LatWritten != LatOnly
    ensures |ChangedAmong(Trace(PatchCoordinates, LatOnly, [Entry]), 1)| == 1
    ensures FixEntry(LatOnly, Entry) == LatOnly
    ensures |MatchedAmong(Trace(FixEntry, LatOnly, [Entry]), [Entry], 1)| == 0
  {
    PassesCountLatAlone();
    PairCountsNothing();
  }
}

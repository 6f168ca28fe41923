/**
 * The five patch scripts as loops over their tables. Each reads one text,
 * applies its entries in table order (each entry to the previous entry's
 * output), and returns the text it would write; three of them also return the
 * count they report.
 */
module Scripts {
  import opened Common
  import opened Engine
  import opened Patterns
  import opened Rewrite

  // ------------------------------------------------- applying a table in order

  /**
   * The texts a patch loop passes through: `ts[i]` is the text entry `i` is
   * applied to and `ts[|es|]` the text that is written.
   */
  function Trace<E>(step: (string, E) -> string, t: string, es: seq<E>): (ts: seq<string>)
    ensures |ts| == |es| + 1 && ts[0] == t
    ensures forall i :: 0 <= i < |es| ==> ts[i + 1] == step(ts[i], es[i])
    decreases |es|
  {
    if es == [] then [t]
    else
      var rest := Trace(step, step(t, es[0]), es[1..]);
      assert forall i :: 1 <= i < |es| ==> es[i] == es[1..][i - 1];
      [t] + rest
  }

  /** Entry `i` changed the text. */
  predicate StepChanged(ts: seq<string>, i: nat) {
    i + 1 < |ts| && ts[i + 1] != ts[i]
  }

  /** The entries among the first `n` whose step changed the text. */
  ghost function ChangedAmong(ts: seq<string>, n: nat): set<nat> {
    set i: nat | i < n && StepChanged(ts, i)
  }

  lemma ChangedAmongGrows(ts: seq<string>, n: nat)
    ensures ChangedAmong(ts, n + 1) == ChangedAmong(ts, n) + (if StepChanged(ts, n) then {n} else {})
    ensures n !in ChangedAmong(ts, n)
  {
  }

  /** A table every entry of which leaves `t` as it is passes `t` through unchanged. */
  lemma {:induction false} TraceOfFixedPoint<E>(step: (string, E) -> string, t: string, es: seq<E>)
    requires forall e :: e in es ==> step(t, e) == t
    ensures forall i :: 0 <= i <= |es| ==> Trace(step, t, es)[i] == t
  {
    var ts := Trace(step, t, es);
    forall i | 0 <= i <= |es|
      ensures ts[i] == t
    {
      var j := 0;
      while j < i
        invariant j <= i && ts[j] == t
      {
        assert es[j] in es;
        j := j + 1;
      }
    }
  }

  // ---------------------------------------------- update-coordinates.ts

  /** One row of `CORRECT_COORDINATES`, the numbers already rendered as text. */
  datatype Coordinates = Coordinates(id: string, lat: string, lng: string)

  function LatPass(e: Coordinates): Rule {
    Coordinate(e.id, "lat:", e.lat)
  }

  function LngPass(e: Coordinates): Rule {
    Coordinate(e.id, "lng:", e.lng)
  }

  /**
   * The two passes for one entry: every `lat` match first, then every `lng`
   * match. A text with no record of the id is left as it is.
   */
  function PatchCoordinates(t: string, e: Coordinates): (r: string)
    ensures (forall p: nat :: Matches(LatPass(e), t)(p).None?) && (forall p: nat :: Matches(LngPass(e), t)(p).None?) ==> r == t
  {
    NoMatchKeepsText(LatPass(e), t);
    NoMatchKeepsText(LngPass(e), ReplaceAll(LatPass(e), t));
    ReplaceAll(LngPass(e), ReplaceAll(LatPass(e), t))
  }

  /**
   * `updateCoordinates`: the written text is the last text of the trace, and
   * the count is the number of entries whose two passes changed the text.
   */
  method UpdateCoordinates(content: string, table: seq<Coordinates>) returns (written: string, updated: nat)
    ensures var ts := Trace(PatchCoordinates, content, table);
      written == ts[|table|] && updated == |ChangedAmong(ts, |table|)|
  {
    ghost var ts := Trace(PatchCoordinates, content, table);
    written := content;
    updated := 0;
    var i := 0;
    while i < |table|
      invariant i <= |table|
      invariant written == ts[i]
      invariant updated == |ChangedAmong(ts, i)|
    {
      var original := written;
      written := ReplaceAll(LatPass(table[i]), written);
      written := ReplaceAll(LngPass(table[i]), written);
      ChangedAmongGrows(ts, i);
      if written != original {
        updated := updated + 1;
      }
      i := i + 1;
    }
  }

  // ---------------------------------------------------- fix-coordinates.py

  function PairPass(e: Coordinates): Rule {
    CoordinatePair(e.id, e.lat, e.lng)
  }

  /** One entry: the substituted text when there was a match, the old one otherwise (a text with no record of the id is left as it is). */
  function FixEntry(t: string, e: Coordinates): (r: string)
    ensures (forall p: nat :: Matches(PairPass(e), t)(p).None?) ==> r == t
  {
    var (replaced, count) := ReplaceOnce(PairPass(e), t);
    if count > 0 then replaced else t
  }

  /**
   * Entry `i` of the table matched the text it was applied to (`re.subn`
   * reports a substitution exactly when the pattern matches somewhere).
   */
  predicate EntryMatched(ts: seq<string>, table: seq<Coordinates>, i: nat) {
    i < |table| && i < |ts| && ReplaceOnce(PairPass(table[i]), ts[i]).1 > 0
  }

  /** Whether each entry matched, entry by entry. */
  function MatchFlags(ts: seq<string>, table: seq<Coordinates>): (flags: seq<bool>)
    ensures |flags| == |table|
    ensures forall i :: 0 <= i < |table| ==> flags[i] == EntryMatched(ts, table, i)
  {
    seq(|table|, i requires 0 <= i < |table| => EntryMatched(ts, table, i))
  }

  /** The indices below `n` whose flag is set. */
  ghost function Flagged(flags: seq<bool>, n: nat): set<nat> {
    set i: nat | i < n && i < |flags| && flags[i]
  }

  lemma FlaggedGrows(flags: seq<bool>, n: nat)
    ensures |Flagged(flags, n + 1)| == |Flagged(flags, n)| + (if n < |flags| && flags[n] then 1 else 0)
  {
    assert Flagged(flags, n + 1) == Flagged(flags, n) + (if n < |flags| && flags[n] then {n} else {});
    assert n !in Flagged(flags, n);
  }

  /** The entries among the first `n` whose pattern matched. */
  ghost function MatchedAmong(ts: seq<string>, table: seq<Coordinates>, n: nat): set<nat> {
    Flagged(MatchFlags(ts, table), n)
  }

  /**
   * `update_coordinates`: the written text is the last text of the trace, and
   * the count is the number of entries whose pattern matched the text they
   * were applied to, whether or not the substitution changed it.
   */
  method FixCoordinates(content: string, table: seq<Coordinates>) returns (written: string, updated: nat)
    ensures var ts := Trace(FixEntry, content, table);
      && written == ts[|table|]
      && updated == |MatchedAmong(ts, table, |table|)|
  {
    ghost var ts := Trace(FixEntry, content, table);
    ghost var flags := MatchFlags(ts, table);
    written := content;
    updated := 0;
    var i := 0;
    while i < |table|
      invariant i <= |table|
      invariant written == ts[i]
      invariant updated == |Flagged(flags, i)|
    {
      var (replaced, count) := ReplaceOnce(PairPass(table[i]), written);
      FlaggedGrows(flags, i);
      assert flags[i] == (count > 0);
      assert ts[i + 1] == FixEntry(ts[i], table[i]);
      assert FixEntry(written, table[i]) == if count > 0 then replaced else written;
      if count > 0 {
        written := replaced;
        updated := updated + 1;
      }
      i := i + 1;
    }
  }

  // ------------------------------------------------------ update-photos.mjs

  /** One row of `CORRECT_PHOTOS`. */
  datatype Photos = Photos(id: string, urls: seq<string>)

  function PhotosPass(e: Photos): Rule {
    PhotoList(e.id, e.urls)
  }

  /** One entry of `CORRECT_PHOTOS`: a text with no record of the id is left as it is. */
  function PatchPhotos(t: string, e: Photos): (r: string)
    ensures (forall p: nat :: Matches(PhotosPass(e), t)(p).None?) ==> r == t
  {
    NoMatchKeepsText(PhotosPass(e), t);
    ReplaceAll(PhotosPass(e), t)
  }

  /**
   * `updatePhotos`: the written text is the last text of the trace, and the
   * count is the number of entries whose replacement changed the text.
   */
  method UpdatePhotos(content: string, table: seq<Photos>) returns (written: string, updated: nat)
    ensures var ts := Trace(PatchPhotos, content, table);
      written == ts[|table|] && updated == |ChangedAmong(ts, |table|)|
  {
    ghost var ts := Trace(PatchPhotos, content, table);
    written := content;
    updated := 0;
    var i := 0;
    while i < |table|
      invariant i <= |table|
      invariant written == ts[i]
      invariant updated == |ChangedAmong(ts, i)|
    {
      var original := written;
      written := ReplaceAll(PhotosPass(table[i]), written);
      ChangedAmongGrows(ts, i);
      if written != original {
        updated := updated + 1;
      }
      i := i + 1;
    }
  }

  // ------------------------------------ update-rome-data.py / update-rome-data.mjs

  /** One row of `updates` / `photoUpdates`: the id and the literal block that replaces `photos: [ ... ],`. */
  datatype Block = Block(id: string, photos: string)

  function RomePyPass(e: Block): Rule {
    PhotoBlock(Exact(e.id), e.photos)
  }

  function RomeMjsPass(e: Block): Rule {
    PhotoBlock(DashLoose(e.id), e.photos)
  }

  /** One entry of `updates`: a text with no record of the id is left as it is. */
  function PatchRomePy(t: string, e: Block): (r: string)
    ensures (forall p: nat :: Matches(RomePyPass(e), t)(p).None?) ==> r == t
  {
    NoMatchKeepsText(RomePyPass(e), t);
    ReplaceAll(RomePyPass(e), t)
  }

  /** One entry of `photoUpdates`: a text with no record of the id is left as it is. */
  function PatchRomeMjs(t: string, e: Block): (r: string)
    ensures (forall p: nat :: Matches(RomeMjsPass(e), t)(p).None?) ==> r == t
  {
    NoMatchKeepsText(RomeMjsPass(e), t);
    ReplaceAll(RomeMjsPass(e), t)
  }

  /** update-rome-data.py: the `updates` loop; nothing is counted. */
  method UpdateRomePy(content: string, updates: seq<Block>) returns (written: string)
    ensures written == Trace(PatchRomePy, content, updates)[|updates|]
  {
    ghost var ts := Trace(PatchRomePy, content, updates);
    written := content;
    var i := 0;
    while i < |updates|
      invariant i <= |updates| && written == ts[i]
    {
      written := ReplaceAll(RomePyPass(updates[i]), written);
      i := i + 1;
    }
  }

  /** update-rome-data.mjs: the `photoUpdates` loop; nothing is counted. */
  method UpdateRomeMjs(content: string, photoUpdates: seq<Block>) returns (written: string)
    ensures written == Trace(PatchRomeMjs, content, photoUpdates)[|photoUpdates|]
  {
    ghost var ts := Trace(PatchRomeMjs, content, photoUpdates);
    written := content;
    var i := 0;
    while i < |photoUpdates|
      invariant i <= |photoUpdates| && written == ts[i]
    {
      written := ReplaceAll(RomeMjsPass(photoUpdates[i]), written);
      i := i + 1;
    }
  }
}

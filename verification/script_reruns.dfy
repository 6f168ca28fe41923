/**
 * The patch scripts run a second time on what they wrote, at the level of
 * their tables and counts.
 */
module ScriptReruns {
  import opened Common
  import opened Text
  import opened Patterns
  import opened Rewrite
  import opened Scripts
  import opened CoordinateReruns
  import opened PhotoReruns
  import opened PairReruns
  import opened EntryReruns

  /**
   * A table whose every entry leaves `t` as it is passes `t` through
   * unchanged, and no entry counts as changed: the count of
   * update-coordinates.ts and update-photos.mjs is 0.
   */
  lemma {:induction false} SettledTableRerun<E>(step: (string, E) -> string, t: string, es: seq<E>)
    requires forall e :: e in es ==> step(t, e) == t
    ensures Trace(step, t, es)[|es|] == t
    ensures ChangedAmong(Trace(step, t, es), |es|) == {}
  {
    var ts := Trace(step, t, es);
    TraceOfFixedPoint(step, t, es);
    forall i: nat | i < |es|
      ensures !StepChanged(ts, i)
    {
      assert ts[i] == t && ts[i + 1] == t;
    }
  }

  /** The count of a one-entry table: 1 when the entry changed the text, 0 otherwise. */
  lemma OneEntryCount<E>(step: (string, E) -> string, t: string, e: E)
    ensures |ChangedAmong(Trace(step, t, [e]), 1)| == if step(t, e) != t then 1 else 0
  {
    var ts := Trace(step, t, [e]);
    ChangedAmongGrows(ts, 0);
    assert ChangedAmong(ts, 0) == {};
  }

  /**
   * update-photos.mjs with one entry, run twice: the second run writes what
   * the first wrote and counts 0. The entry's id has no colon and its urls no
   * `$` and no `]`.
   */
  method RerunUpdatePhotos(content: string, e: Photos) returns (first: string, count: nat, second: string, recount: nat)
    requires Lacks(e.id, ':') && PlainUrls(e.urls)
    ensures first == PatchPhotos(content, e)
    ensures count == if first != content then 1 else 0
    ensures second == first && recount == 0
  {
    first, count := UpdatePhotos(content, [e]);
    OneEntryCount(PatchPhotos, content, e);
    second, recount := UpdatePhotos(first, [e]);
    PhotoListPassIdempotent(e.id, e.urls, content);
    SettledTableRerun(PatchPhotos, first, [e]);
  }

  /**
   * update-coordinates.ts with one entry, run twice: the second run writes
   * what the first wrote and counts 0. The entry's id has no colon and its
   * two values are number runs.
   */
  method RerunUpdateCoordinates(content: string, e: Coordinates) returns (first: string, count: nat, second: string, recount: nat)
    requires Lacks(e.id, ':') && NumberText(e.lat) && NumberText(e.lng)
    ensures first == PatchCoordinates(content, e)
    ensures count == if first != content then 1 else 0
    ensures second == first && recount == 0
  {
    first, count := UpdateCoordinates(content, [e]);
    OneEntryCount(PatchCoordinates, content, e);
    second, recount := UpdateCoordinates(first, [e]);
    PatchCoordinatesIdempotent(content, e);
    SettledTableRerun(PatchCoordinates, first, [e]);
  }

  /** One flag: counted exactly when it is set. */
  lemma OneFlag(flags: seq<bool>)
    requires |flags| == 1
    ensures |Flagged(flags, 1)| == if flags[0] then 1 else 0
  {
    FlaggedGrows(flags, 0);
    assert Flagged(flags, 0) == {};
  }

  /** The count of a one-entry fix-coordinates table: 1 when the entry's pattern matched, 0 otherwise. */
  lemma OneEntryMatched(t: string, e: Coordinates)
    ensures |MatchedAmong(Trace(FixEntry, t, [e]), [e], 1)| == if ReplaceOnce(PairPass(e), t).1 > 0 then 1 else 0
  {
    var ts := Trace(FixEntry, t, [e]);
    var flags := MatchFlags(ts, [e]);
    OneFlag(flags);
    assert flags[0] == EntryMatched(ts, [e], 0);
  }

  /**
   * One entry of fix-coordinates.py applied to its own output: the text
   * stays as it is, and the pattern matches again exactly when it matched
   * the first time.
   */
  lemma FixEntryRerun(t: string, e: Coordinates)
    requires Lacks(e.id, ':') && NumberText(e.lat) && NumberText(e.lng)
    ensures FixEntry(FixEntry(t, e), e) == FixEntry(t, e)
    ensures ReplaceOnce(PairPass(e), FixEntry(t, e)).1 == ReplaceOnce(PairPass(e), t).1
  {
    PairRerun(e, t);
  }

  /** fix-coordinates.py on a one-entry table writes and counts what the entry's substitution does. */
  lemma OneEntryRun(content: string, e: Coordinates, written: string, updated: nat)
    requires var ts := Trace(FixEntry, content, [e]);
      written == ts[1] && updated == |MatchedAmong(ts, [e], 1)|
    ensures written == FixEntry(content, e)
    ensures updated == if ReplaceOnce(PairPass(e), content).1 > 0 then 1 else 0
  {
    OneEntryMatched(content, e);
  }

  /** `re.subn` with `count=1` reports a substitution exactly when the pattern matches somewhere. */
  lemma OnceCountsMatch(r: Rule, t: string)
    ensures ReplaceOnce(r, t).1 > 0 <==> exists p: nat :: MatchAt(r, t, p).Some?
  {
    if ReplaceOnce(r, t).1 == 0 {
      forall p: nat ensures MatchAt(r, t, p).None? {
        assert Matches(r, t)(p).None?;
      }
    } else {
      var p :| Matches(r, t)(p).Some?;
      assert MatchAt(r, t, p).Some?;
    }
  }

  /**
   * fix-coordinates.py with one entry, run twice: the second run writes what
   * the first wrote and reports the same count: 1 when the pair pattern
   * matches somewhere (the anchor, then a `lat:` number, then a `lng:` number
   * after it) and 0 otherwise. The entry's id has no colon and its two values
   * are number runs.
   */
  method RerunFixCoordinates(content: string, e: Coordinates) returns (first: string, count: nat, second: string, recount: nat)
    requires Lacks(e.id, ':') && NumberText(e.lat) && NumberText(e.lng)
    ensures first == FixEntry(content, e)
    ensures count == if exists p: nat :: MatchAt(PairPass(e), content, p).Some? then 1 else 0
    ensures second == first && recount == count
  {
    first, count := FixCoordinates(content, [e]);
    OneEntryRun(content, e, first, count);
    second, recount := FixCoordinates(first, [e]);
    OneEntryRun(first, e, second, recount);
    FixEntryRerun(content, e);
    OnceCountsMatch(PairPass(e), content);
  }
}

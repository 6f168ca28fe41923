/**
 * update-rome-data.py and update-rome-data.mjs run twice. The block each
 * entry writes starts with its own four spaces of indentation, which the
 * pattern's kept prefix does not absorb: a second run finds the `photos: [`
 * after those spaces and writes the block again behind them, so the text
 * grows by four spaces with every run.
 */
module RomeReruns {
  import opened Common
  import opened Text
  import opened Engine
  import opened Patterns
  import opened Rewrite
  import opened Locality
  import opened Scripts

  /** A record with an empty list, and an entry whose block is indented as the script's blocks are. */
  const Record: string := "id: 'a',photos: [],"
  const Entry: Block := Block("a", "    photos: [],")
  /** The text after one run: the block behind the kept `id: 'a',`. */
  const Once: string := Record[..8] + Entry.photos

  /** The anchor, the `photos: [` and the `],` of a block match at the start of `t`. */
  lemma BlockMatchAt(anchor: Anchor, t: string, k: nat, c: nat)
    requires AnchorEnd(anchor, t, 0) == Some(8) && Find(t, 8, "photos: [") == Some(k)
    requires k + 9 <= |t| && Find(t, k + 9, "],") == Some(c)
    ensures PhotoBlockMatch(anchor, t, 0) == Some(Hit(0, [k], c + 2))
  {
  }

  /** The only match of a block pattern in `t`, given where its parts are. */
  lemma OnlyBlockMatch(anchor: Anchor, block: string, t: string, k: nat, c: nat)
    requires AnchorEnd(anchor, t, 0) == Some(8) && Find(t, 8, "photos: [") == Some(k)
    requires k + 9 <= |t| && Find(t, k + 9, "],") == Some(c) && c + 2 == |t|
    requires forall p: nat :: 0 < p ==> AnchorEnd(anchor, t, p).None?
    ensures ReplaceAll(PhotoBlock(anchor, block), t) == t[..k] + block
  {
    var r := PhotoBlock(anchor, block);
    var m := Matches(r, t);
    var h := Hit(0, [k], c + 2);
    MatchesAdvance(r, t);
    BlockMatchAt(anchor, t, k, c);
    assert m(0) == PhotoBlockMatch(anchor, t, 0);
    LeftmostIs(m, |t|, 0, 0);
    forall p: nat | h.end <= p
      ensures m(p).None?
    {
      assert m(p) == PhotoBlockMatch(anchor, t, p);
    }
    SingleMatch(m, Renders(r, t), t, 0, h);
    assert t[h.end..] == [];
  }

  /** No anchor starts after the first character of a text with no other `i`. */
  lemma AnchorOnlyAtStart(anchor: Anchor, t: string)
    requires anchor == Exact("a") || anchor == DashLoose("a")
    requires forall j :: 0 < j < |t| ==> t[j] != 'i'
    ensures forall p: nat :: 0 < p ==> AnchorEnd(anchor, t, p).None?
  {
    forall p: nat | 0 < p
      ensures AnchorEnd(anchor, t, p).None?
    {
      if p + 5 <= |t| {
        assert t[p..p + 5][0] == t[p];
      }
    }
  }

  /** A text that starts with `id: 'a',` has the anchor there. */
  lemma AnchorAtStart(anchor: Anchor, t: string)
    requires anchor == Exact("a") || anchor == DashLoose("a")
    requires |t| >= 8 && t[..8] == "id: 'a',"
    ensures AnchorEnd(anchor, t, 0) == Some(8)
  {
    assert t[0..8] == t[..8];
    assert t[0..5] == "id: '" && t[5] == 'a' && t[6..8] == "',";
  }

  /** Where the parts of the pattern fall in the record. */
  lemma RecordParts(anchor: Anchor)
    requires anchor == Exact("a") || anchor == DashLoose("a")
    ensures AnchorEnd(anchor, Record, 0) == Some(8)
    ensures forall p: nat :: 0 < p ==> AnchorEnd(anchor, Record, p).None?
    ensures Find(Record, 8, "photos: [") == Some(8) && Find(Record, 17, "],") == Some(17)
  {
    assert Record[..8] == "id: 'a',";
    AnchorAtStart(anchor, Record);
    AnchorOnlyAtStart(anchor, Record);
    assert Record[8..17] == "photos: [";
    FindIs(Record, 8, "photos: [", 8);
    assert Record[17..19] == "],";
    FindIs(Record, 17, "],", 17);
  }

  /** Where the anchor falls in the text after one run. */
  lemma OnceAnchor(anchor: Anchor)
    requires anchor == Exact("a") || anchor == DashLoose("a")
    ensures AnchorEnd(anchor, Once, 0) == Some(8)
    ensures forall p: nat :: 0 < p ==> AnchorEnd(anchor, Once, p).None?
  {
    assert Once[..8] == "id: 'a',";
    AnchorAtStart(anchor, Once);
    AnchorOnlyAtStart(anchor, Once);
  }

  /** The `photos: [` after the block's own spaces, and its `],`. */
  lemma OnceKeys()
    ensures Find(Once, 8, "photos: [") == Some(12) && Find(Once, 21, "],") == Some(21)
  {
    assert Once[12..21] == "photos: [";
    forall j | 8 <= j < 12
      ensures !OccursAt(Once, j, "photos: [")
    {
      assert Once[j..j + 9][0] == Once[j] == ' ';
    }
    FindIs(Once, 8, "photos: [", 12);
    assert Once[21..23] == "],";
    FindIs(Once, 21, "],", 21);
  }

  /** One run keeps `id: 'a',` and writes the block in place of `photos: [],`. */
  lemma RomeFirstRun(anchor: Anchor)
    requires anchor == Exact("a") || anchor == DashLoose("a")
    ensures ReplaceAll(PhotoBlock(anchor, Entry.photos), Record) == Once
  {
    RecordParts(anchor);
    OnlyBlockMatch(anchor, Entry.photos, Record, 8, 17);
  }

  /** A second run keeps the block's four spaces as part of the prefix and writes the whole block after them. */
  lemma RomeSecondRun(anchor: Anchor)
    requires anchor == Exact("a") || anchor == DashLoose("a")
    ensures |ReplaceAll(PhotoBlock(anchor, Entry.photos), Once)| == |Once| + 4
  {
    OnceAnchor(anchor);
    OnceKeys();
    OnlyBlockMatch(anchor, Entry.photos, Once, 12, 21);
  }

  /** update-rome-data.py run twice on the record: the second run adds four characters, the block's indentation again. */
  lemma RomePyRerunGrows()
    ensures var once := Trace(PatchRomePy, Record, [Entry])[1];
      once == Once && |Trace(PatchRomePy, once, [Entry])[1]| == |once| + 4
  {
    RomeFirstRun(Exact("a"));
    RomeSecondRun(Exact("a"));
  }

  /** update-rome-data.mjs run twice on the record: the same growth. */
  lemma RomeMjsRerunGrows()
    ensures var once := Trace(PatchRomeMjs, Record, [Entry])[1];
      once == Once && |Trace(PatchRomeMjs, once, [Entry])[1]| == |once| + 4
  {
    RomeFirstRun(DashLoose("a"));
    RomeSecondRun(DashLoose("a"));
  }
}

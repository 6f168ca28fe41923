/**
 * The five record-locating regular expressions of the patch scripts, each
 * written out as a deterministic scanner.
 *
 * Every pattern has the shape  anchor · [\s\S]*? · key · value.  The anchor
 * is fixed text around the landmark id; `\s*` inside it is always followed by
 * a character `\s` cannot match, so it never gives characters back. The lazy
 * gap tries the nearest key first. When the nearest key is followed by no
 * complete value, every later key fails as well (the value's terminator is
 * searched for in a suffix of the same text), so the regex match that starts
 * at `p`, if any, is exactly the one built from the nearest key. `MatchAt`
 * computes that match; `Engine` then scans for the leftmost start.
 */
module Patterns {
  import opened Common
  import opened Text
  import opened JsRegExp
  import opened Engine

  // ---------------------------------------------------------------- anchors

  datatype Anchor =
    /** `id:\s*['"]<id>['"]` (update-coordinates.ts, fix-coordinates.py, update-photos.mjs) */
    | Quoted(dialect: Dialect, id: string)
    /** `id: '<id>',` (update-rome-data.py) */
    | Exact(id: string)
    /** `id: '<id>',` with every `-` and `_` of the id read as `[-_]` (update-rome-data.mjs) */
    | DashLoose(id: string)

  predicate IsQuote(c: char) {
    c == '\'' || c == '"'
  }

  /** A character of the id as the `[-_]` rewriting of update-rome-data.mjs reads it. */
  predicate IdCharMatches(p: char, c: char) {
    if p == '-' || p == '_' then c == '-' || c == '_' else c == p
  }

  predicate LooseIdAt(t: string, i: nat, id: string) {
    i + |id| <= |t| && forall k :: 0 <= k < |id| ==> IdCharMatches(id[k], t[i + k])
  }

  /** Index just past the anchor when it occurs at `p`. */
  function AnchorEnd(a: Anchor, t: string, p: nat): (r: Option<nat>)
    ensures r.Some? ==> p + 5 + |a.id| <= r.value <= |t|
    ensures r.Some? && a.Quoted? ==>
      && OccursAt(t, p, "id:") && IsQuote(t[r.value - 1]) && IsQuote(t[r.value - 2 - |a.id|])
      && OccursAt(t, r.value - 1 - |a.id|, a.id)
      && (forall k :: p + 3 <= k < r.value - 2 - |a.id| ==> IsSpace(a.dialect, t[k]))
  {
    match a
    case Quoted(d, id) =>
      if OccursAt(t, p, "id:") then
        var q := SkipSpaces(d, t, p + 3);
        if q + 2 + |id| <= |t| && IsQuote(t[q]) && OccursAt(t, q + 1, id) && IsQuote(t[q + 1 + |id|])
        then Some(q + 2 + |id|)
        else None
      else None
    case Exact(id) =>
      if OccursAt(t, p, "id: '" + id + "',") then Some(p + 7 + |id|) else None
    case DashLoose(id) =>
      if OccursAt(t, p, "id: '") && LooseIdAt(t, p + 5, id) && OccursAt(t, p + 5 + |id|, "',")
      then Some(p + 7 + |id|)
      else None
  }

  // ------------------------------------------------------------------- keys

  /** `<key>\s*` followed by a `[\d.-]` at `k`: the index where the number starts. */
  function NumberAfter(d: Dialect, key: string, t: string, k: nat): (r: Option<nat>)
    ensures r.Some? ==> OccursAt(t, k, key) && k + |key| <= r.value < |t| && IsNumberChar(t[r.value])
    ensures r.Some? ==> forall j :: k + |key| <= j < r.value ==> IsSpace(d, t[j])
  {
    if OccursAt(t, k, key) then
      var v := SkipSpaces(d, t, k + |key|);
      if v < |t| && IsNumberChar(t[v]) then Some(v) else None
    else None
  }

  /** The nearest `<key>\s*[\d.-]` at or after `i` (the lazy gap before a number key). */
  function FirstNumberKey(d: Dialect, key: string, t: string, i: nat): (r: Option<nat>)
    requires i <= |t|
    ensures r.Some? ==> i <= r.value && NumberAfter(d, key, t, r.value).Some?
    ensures forall j :: i <= j && (r.None? || j < r.value) ==> NumberAfter(d, key, t, j).None?
    decreases |t| - i
  {
    if NumberAfter(d, key, t, i).Some? then Some(i)
    else if i == |t| then None
    else FirstNumberKey(d, key, t, i + 1)
  }

  /** `photos:\s*\[` at `k`: the index just past the bracket. */
  function BracketAfterPhotos(t: string, k: nat): (r: Option<nat>)
    ensures r.Some? ==> OccursAt(t, k, "photos:") && k + 8 <= r.value <= |t| && t[r.value - 1] == '['
    ensures r.Some? ==> forall j :: k + 7 <= j < r.value - 1 ==> IsJsSpace(t[j])
  {
    if OccursAt(t, k, "photos:") then
      var j := SkipSpaces(JavaScript, t, k + 7);
      if j < |t| && t[j] == '[' then Some(j + 1) else None
    else None
  }

  /** The nearest `photos:\s*\[` at or after `i`. */
  function FirstPhotosKey(t: string, i: nat): (r: Option<nat>)
    requires i <= |t|
    ensures r.Some? ==> i <= r.value && BracketAfterPhotos(t, r.value).Some?
    ensures forall j :: i <= j && (r.None? || j < r.value) ==> BracketAfterPhotos(t, j).None?
    decreases |t| - i
  {
    if BracketAfterPhotos(t, i).Some? then Some(i)
    else if i == |t| then None
    else FirstPhotosKey(t, i + 1)
  }

  /** A key-and-number window with none before it from `i` is the one `FirstNumberKey` finds. */
  lemma FirstNumberKeyIs(d: Dialect, key: string, t: string, i: nat, k: nat)
    requires i <= k && i <= |t|
    requires NumberAfter(d, key, t, k).Some?
    requires forall j :: i <= j < k ==> NumberAfter(d, key, t, j).None?
    ensures FirstNumberKey(d, key, t, i) == Some(k)
  {
  }

  /** A `photos:\s*[` with none before it from `i` is the one `FirstPhotosKey` finds. */
  lemma FirstPhotosKeyIs(t: string, i: nat, k: nat)
    requires i <= k && i <= |t|
    requires BracketAfterPhotos(t, k).Some?
    requires forall j :: i <= j < k ==> BracketAfterPhotos(t, j).None?
    ensures FirstPhotosKey(t, i) == Some(k)
  {
  }

  // ------------------------------------------------------------------ rules

  /** One substitution pass of one script, with the value it writes. */
  datatype Rule =
    /** update-coordinates.ts: one of its two passes; `key` is "lat:" or "lng:" */
    | Coordinate(id: string, key: string, value: string)
    /** fix-coordinates.py: lat and lng in one match */
    | CoordinatePair(id: string, lat: string, lng: string)
    /** update-photos.mjs: the list body between `[` and the first `]` */
    | PhotoList(id: string, urls: seq<string>)
    /** update-rome-data.py / update-rome-data.mjs: `photos: [ ... ],` replaced by a literal block */
    | PhotoBlock(anchor: Anchor, block: string)

  /** A match of `r` in `t`: its cuts are the ones `MatchAt` documents for the rule. */
  predicate WellFormed(r: Rule, t: string, h: Hit) {
    && h.start < h.end <= |t|
    && match r
       case Coordinate(_, _, _) =>
         |h.cuts| == 1 && h.start <= h.cuts[0] <= h.end
       case CoordinatePair(id, _, _) =>
         && |h.cuts| == 4
         && h.start <= h.cuts[0] && h.cuts[0] + |id| <= h.cuts[1]
         && h.cuts[1] <= h.cuts[2] <= h.cuts[3] <= h.end
       case PhotoList(_, _) =>
         |h.cuts| == 1 && h.start <= h.cuts[0] < h.end
       case PhotoBlock(_, _) =>
         |h.cuts| == 1 && h.start <= h.cuts[0] <= h.end
  }

  /**
   * The match of `r` that starts at `p`, if any. Cuts:
   *  - Coordinate: [number start]; the number runs to `end`.
   *  - CoordinatePair: [id start, lat number start, lat number end, lng number start].
   *  - PhotoList: [index past `[`]; `end - 1` is the closing `]`.
   *  - PhotoBlock: [index of `photos: [`]; the match ends past `],`.
   */
  function MatchAt(r: Rule, t: string, p: nat): (m: Option<Hit>)
    ensures m.Some? ==> m.value.start == p && WellFormed(r, t, m.value)
  {
    match r
    case Coordinate(id, key, _) => CoordinateMatch(id, key, t, p)
    case CoordinatePair(id, _, _) => PairMatch(id, t, p)
    case PhotoList(id, _) => PhotoListMatch(id, t, p)
    case PhotoBlock(anchor, _) => PhotoBlockMatch(anchor, t, p)
  }

  /** `(id:\s*['"]<id>['"][\s\S]*?<key>\s*)([\d.-]+)` at `p`. */
  function CoordinateMatch(id: string, key: string, t: string, p: nat): (m: Option<Hit>)
    ensures m.Some? ==> m.value.start == p && WellFormed(Coordinate(id, key, ""), t, m.value)
  {
    match AnchorEnd(Quoted(JavaScript, id), t, p)
    case None => None
    case Some(a) =>
      match FirstNumberKey(JavaScript, key, t, a)
      case None => None
      case Some(k) =>
        var v := NumberAfter(JavaScript, key, t, k).value;
        Some(Hit(p, [v], NumberEnd(t, v)))
  }

  /** `(id:\s*['"])<id>(['"][\s\S]*?lat:\s*)[\d.-]+([\s\S]*?lng:\s*)[\d.-]+` at `p`. */
  function PairMatch(id: string, t: string, p: nat): (m: Option<Hit>)
    ensures m.Some? ==> m.value.start == p && WellFormed(CoordinatePair(id, "", ""), t, m.value)
  {
    match AnchorEnd(Quoted(Python, id), t, p)
    case None => None
    case Some(a) =>
      match FirstNumberKey(Python, "lat:", t, a)
      case None => None
      case Some(k1) =>
        var v1 := NumberAfter(Python, "lat:", t, k1).value;
        var e1 := NumberEnd(t, v1);
        match FirstNumberKey(Python, "lng:", t, e1)
        case None => None
        case Some(k2) =>
          var v2 := NumberAfter(Python, "lng:", t, k2).value;
          Some(Hit(p, [a - 1 - |id|, v1, e1, v2], NumberEnd(t, v2)))
  }

  /** `(id:\s*['"]<escaped id>['"][\s\S]*?photos:\s*\[)[^\]]*?(\])` at `p`. */
  function PhotoListMatch(id: string, t: string, p: nat): (m: Option<Hit>)
    ensures m.Some? ==> m.value.start == p && WellFormed(PhotoList(id, []), t, m.value)
  {
    match AnchorEnd(Quoted(JavaScript, id), t, p)
    case None => None
    case Some(a) =>
      match FirstPhotosKey(t, a)
      case None => None
      case Some(k) =>
        var b := BracketAfterPhotos(t, k).value;
        match Find(t, b, "]")
        case None => None
        case Some(c) => Some(Hit(p, [b], c + 1))
  }

  /** `(<anchor>[\s\S]*?)photos: \[[\s\S]*?\],` at `p`. */
  function PhotoBlockMatch(anchor: Anchor, t: string, p: nat): (m: Option<Hit>)
    ensures m.Some? ==> m.value.start == p && WellFormed(PhotoBlock(anchor, ""), t, m.value)
  {
    match AnchorEnd(anchor, t, p)
    case None => None
    case Some(a) =>
      match Find(t, a, "photos: [")
      case None => None
      case Some(k) =>
        match Find(t, k + 9, "],")
        case None => None
        case Some(c) => Some(Hit(p, [k], c + 2))
  }

  // ------------------------------------------------------------ replacement

  /**
   * The photo list text update-photos.mjs builds: each url as a line
   * `\n      '<url>'`, the lines joined by `,`, then `\n    `.
   */
  function PhotoListBody(urls: seq<string>): string {
    JoinComma(urls) + "\n    "
  }

  function PhotoLine(url: string): string {
    "\n      '" + url + "'"
  }

  function JoinComma(urls: seq<string>): string
    decreases |urls|
  {
    if |urls| == 0 then ""
    else if |urls| == 1 then PhotoLine(urls[0])
    else PhotoLine(urls[0]) + "," + JoinComma(urls[1..])
  }

  /** Every photo list body starts a new line, so a `$1` before it is never read as `$1<digit>`. */
  lemma PhotoListBodyStarts(urls: seq<string>)
    ensures |PhotoListBody(urls)| > 0 && PhotoListBody(urls)[0] == '\n'
  {
  }

  /** The replacement each script produces for a match, as the script writes it. */
  function Render(r: Rule, t: string, h: Hit): string
    requires WellFormed(r, t, h)
  {
    match r
    case Coordinate(_, _, value) =>
      // `${prefix}${coords.lat}` where prefix is group 1
      t[h.start..h.cuts[0]] + value
    case CoordinatePair(id, lat, lng) =>
      // group(1) + landmark_id + group(2) + lat + group(3) + lng
      t[h.start..h.cuts[0]] + id + t[h.cuts[0] + |id|..h.cuts[1]] + lat + t[h.cuts[2]..h.cuts[3]] + lng
    case PhotoList(_, urls) =>
      // the replacement string `$1${photosStr}$2`
      Substitute("$1" + PhotoListBody(urls) + "$2", t, h.start, t[h.start..h.end],
                 [t[h.start..h.cuts[0]], t[h.end - 1..h.end]])
    case PhotoBlock(_, block) =>
      // prefix + new_photos
      t[h.start..h.cuts[0]] + block
  }

  /**
   * Every script's replacement starts with its first group: the text from
   * the match's start to its first cut (the anchor and the gap after it) is
   * written back unchanged.
   */
  lemma RenderKeepsFirstGroup(r: Rule, t: string, h: Hit)
    requires WellFormed(r, t, h)
    ensures var s := Render(r, t, h);
      h.cuts[0] - h.start <= |s| && s[..h.cuts[0] - h.start] == t[h.start..h.cuts[0]]
  {
    if r.PhotoList? {
      PhotoListBodyStarts(r.urls);
      assert ("$1" + PhotoListBody(r.urls) + "$2")[2] == '\n';
    }
  }
}

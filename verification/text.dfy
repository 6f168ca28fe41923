/**
 * Text primitives shared by the record patchers: literal occurrence, the
 * character classes the patterns use (`\s`, `[\d.-]`), greedy runs, the
 * first occurrence of a literal at or after an index, and `Splice`.
 */
module Text {
  import opened Common

  /** `w` occurs in `t` starting at index `i`. */
  predicate OccursAt(t: string, i: nat, w: string) {
    i + |w| <= |t| && t[i..i + |w|] == w
  }

  /** The regex flavour whose `\s` applies. */
  datatype Dialect = JavaScript | Python

  /** `\s` of an ECMAScript regular expression: WhiteSpace and LineTerminator. */
  predicate IsJsSpace(c: char) {
    || ('\t' <= c <= '\r')
    || c == ' ' || c == '\U{A0}' || c == '\U{1680}'
    || ('\U{2000}' <= c <= '\U{200A}')
    || c == '\U{2028}' || c == '\U{2029}' || c == '\U{202F}'
    || c == '\U{205F}' || c == '\U{3000}' || c == '\U{FEFF}'
  }

  /** `\s` of a Python `str` pattern: the characters `str.isspace` accepts. */
  predicate IsPySpace(c: char) {
    || ('\t' <= c <= '\r')
    || ('\U{1C}' <= c <= '\U{1F}')
    || c == ' ' || c == '\U{85}' || c == '\U{A0}' || c == '\U{1680}'
    || ('\U{2000}' <= c <= '\U{200A}')
    || c == '\U{2028}' || c == '\U{2029}' || c == '\U{202F}'
    || c == '\U{205F}' || c == '\U{3000}'
  }

  predicate IsSpace(d: Dialect, c: char) {
    match d
    case JavaScript => IsJsSpace(c)
    case Python => IsPySpace(c)
  }

  predicate IsDigit(c: char) {
    '0' <= c <= '9'
  }

  /** The class `[\d.-]` of the coordinate patterns. */
  predicate IsNumberChar(c: char) {
    IsDigit(c) || c == '.' || c == '-'
  }

  /** End of the greedy run `\s*` that starts at `i`. */
  function SkipSpaces(d: Dialect, t: string, i: nat): (j: nat)
    requires i <= |t|
    ensures i <= j <= |t|
    ensures forall k :: i <= k < j ==> IsSpace(d, t[k])
    ensures j == |t| || !IsSpace(d, t[j])
    decreases |t| - i
  {
    if i < |t| && IsSpace(d, t[i]) then SkipSpaces(d, t, i + 1) else i
  }

  /** End of the greedy run `[\d.-]*` that starts at `i`. */
  function NumberEnd(t: string, i: nat): (j: nat)
    requires i <= |t|
    ensures i <= j <= |t|
    ensures forall k :: i <= k < j ==> IsNumberChar(t[k])
    ensures j == |t| || !IsNumberChar(t[j])
    decreases |t| - i
  {
    if i < |t| && IsNumberChar(t[i]) then NumberEnd(t, i + 1) else i
  }

  /** The first occurrence of the literal `w` at or after index `i`. */
  function Find(t: string, i: nat, w: string): (r: Option<nat>)
    requires i <= |t|
    ensures r.Some? ==> i <= r.value && OccursAt(t, r.value, w)
    ensures forall j :: i <= j && (r.None? || j < r.value) ==> !OccursAt(t, j, w)
    decreases |t| - i
  {
    if OccursAt(t, i, w) then Some(i)
    else if i == |t| then None
    else Find(t, i + 1, w)
  }

  /** An occurrence with none before it from `i` is the one `Find` finds. */
  lemma FindIs(t: string, i: nat, w: string, k: nat)
    requires i <= k && i <= |t|
    requires OccursAt(t, k, w)
    requires forall j :: i <= j < k ==> !OccursAt(t, j, w)
    ensures Find(t, i, w) == Some(k)
  {
  }

  /** Replace `t[lo..hi]` by `s`, keeping everything before `lo` and from `hi` on. */
  function Splice(t: string, lo: nat, hi: nat, s: string): (r: string)
    requires lo <= hi <= |t|
    ensures |r| == |t| - (hi - lo) + |s|
    ensures forall k :: 0 <= k < lo ==> r[k] == t[k]
    ensures forall k :: 0 <= k < |s| ==> r[lo + k] == s[k]
    ensures forall k :: hi <= k < |t| ==> r[k - hi + lo + |s|] == t[k]
  {
    t[..lo] + s + t[hi..]
  }

  /** `c` does not occur in `s`. */
  predicate Lacks(s: string, c: char) {
    forall k :: 0 <= k < |s| ==> s[k] != c
  }

  /** An occurrence of `w` at `p` puts each of its characters at its place. */
  lemma OccursAtIndex(t: string, p: nat, w: string, k: nat)
    requires k < |w|
    ensures OccursAt(t, p, w) ==> p + k < |t| && t[p + k] == w[k]
  {
    if OccursAt(t, p, w) {
      assert t[p..p + |w|][k] == t[p + k];
    }
  }

  /** A piece of an occurrence occurs at the corresponding place. */
  lemma OccursWithin(t: string, p: nat, w: string, i: nat, j: nat)
    requires OccursAt(t, p, w) && i <= j <= |w|
    ensures OccursAt(t, p + i, w[i..j])
    ensures forall k :: i <= k < j ==> t[p + k] == w[k]
  {
    forall k | i <= k < j
      ensures t[p + k] == w[k]
    {
      assert t[p..p + |w|][k] == w[k];
    }
    assert t[p + i..p + j] == w[i..j];
  }

  /** Adjacent slices join. */
  lemma JoinSlices(t: string, a: nat, b: nat, c: nat)
    requires a <= b <= c <= |t|
    ensures t[a..b] + t[b..c] == t[a..c]
  {
  }

  lemma JoinSuffix(t: string, a: nat, b: nat)
    requires a <= b <= |t|
    ensures t[a..b] + t[b..] == t[a..]
  {
  }

  /** Putting back the pieces `t[a..b]` and `t[b..]` after `t[from..a]` gives `t[from..]`. */
  lemma Reassemble(t: string, from: nat, a: nat, b: nat, mid: string, tail: string)
    requires from <= a <= b <= |t|
    requires mid == t[a..b] && tail == t[b..]
    ensures t[from..a] + (mid + tail) == t[from..]
  {
    JoinSuffix(t, a, b);
    JoinSuffix(t, from, a);
  }

  /** A prefix kept up to `v` with the text from `p` to `v` in front of the new value. */
  lemma KeepThenWrite(t: string, p: nat, v: nat, value: string, tail: string)
    requires p <= v <= |t|
    ensures t[0..p] + ((t[p..v] + value) + tail) == t[..v] + value + tail
  {
    assert t[0..p] + t[p..v] == t[..v];
  }

  /** A text that starts with `t[from..q]` starts with `t[from..p]` for every `p <= q`. */
  lemma PrefixOfSlice(t: string, from: nat, p: nat, q: nat, tail: string)
    requires from <= p <= q <= |t|
    ensures |t[from..q] + tail| >= p - from
    ensures (t[from..q] + tail)[..p - from] == t[from..p]
  {
  }

  /** `t1` from `i1` on is `t2` from `i2` on, compared character by character. */
  predicate SameSuffix(t1: string, i1: nat, t2: string, i2: nat)
    decreases |t1| - i1
  {
    && i1 <= |t1| && i2 <= |t2| && |t1| - i1 == |t2| - i2
    && if i1 == |t1| then true
       else i2 < |t2| && t1[i1] == t2[i2] && SameSuffix(t1, i1 + 1, t2, i2 + 1)
  }

  /** The character-by-character comparison is equality of the two suffixes. */
  lemma {:induction false} SameSuffixIsEquality(t1: string, i1: nat, t2: string, i2: nat)
    requires i1 <= |t1| && i2 <= |t2|
    ensures SameSuffix(t1, i1, t2, i2) <==> t1[i1..] == t2[i2..]
    decreases |t1| - i1
  {
    if i1 < |t1| && i2 < |t2| {
      SameSuffixIsEquality(t1, i1 + 1, t2, i2 + 1);
      assert t1[i1..] == [t1[i1]] + t1[i1 + 1..];
      assert t2[i2..] == [t2[i2]] + t2[i2 + 1..];
    }
  }

  lemma {:induction false} SameSuffixSymmetric(t1: string, i1: nat, t2: string, i2: nat)
    requires SameSuffix(t1, i1, t2, i2)
    ensures SameSuffix(t2, i2, t1, i1)
  {
    SameSuffixIsEquality(t1, i1, t2, i2);
    SameSuffixIsEquality(t2, i2, t1, i1);
  }

  /** Equal suffixes stay equal further on. */
  lemma SuffixAt(t1: string, i1: nat, t2: string, i2: nat, x: nat)
    requires SameSuffix(t1, i1, t2, i2) && i1 <= x <= |t1|
    ensures SameSuffix(t1, x, t2, x - i1 + i2)
  {
    SameSuffixIsEquality(t1, i1, t2, i2);
    SameSuffixIsEquality(t1, x, t2, x - i1 + i2);
    assert t1[x..] == t1[i1..][x - i1..];
    assert t2[x - i1 + i2..] == t2[i2..][x - i1..];
  }

  /** Equal suffixes stay equal further on, and their slices are equal. */
  lemma SuffixFrom(t1: string, i1: nat, t2: string, i2: nat, x: nat, y: nat)
    requires SameSuffix(t1, i1, t2, i2) && i1 <= x <= y <= |t1|
    ensures |t1| - i1 == |t2| - i2
    ensures SameSuffix(t1, x, t2, x - i1 + i2)
    ensures t1[x..y] == t2[x - i1 + i2..y - i1 + i2]
  {
    SameSuffixIsEquality(t1, i1, t2, i2);
    SameSuffixIsEquality(t1, x, t2, x - i1 + i2);
    assert t1[x..] == t1[i1..][x - i1..];
    assert t2[x - i1 + i2..] == t2[i2..][x - i1..];
    assert t1[x..y] == t1[i1..][x - i1..y - i1];
    assert t2[x - i1 + i2..y - i1 + i2] == t2[i2..][x - i1..y - i1];
  }
}

/**
 * The scripts' rules plugged into the replace loop: the matcher and renderer
 * of a rule over a text, and the two ways the scripts apply a rule.
 */
module Rewrite {
  import opened Common
  import opened Engine
  import opened Patterns

  /** The match of `r` at each position of `t`. */
  function Matches(r: Rule, t: string): Matcher {
    (p: nat) => MatchAt(r, t, p)
  }

  /** What a match of `r` in `t` is replaced by. */
  function Renders(r: Rule, t: string): Hit -> string {
    h => if WellFormed(r, t, h) then Render(r, t, h) else t[..0]
  }

  /** The matches of a rule start where asked and end inside the text. */
  lemma MatchesAdvance(r: Rule, t: string)
    ensures Advances(Matches(r, t), |t|)
  {
  }

  /** `t.replace(/.../g, ...)` and `re.sub(pattern, repl, t)`. */
  function ReplaceAll(r: Rule, t: string): string {
    MatchesAdvance(r, t);
    ReplaceFrom(Matches(r, t), Renders(r, t), t, 0)
  }

  /** A global replacement with no match anywhere returns the text as it is. */
  lemma NoMatchKeepsText(r: Rule, t: string)
    ensures (forall p: nat :: Matches(r, t)(p).None?) ==> ReplaceAll(r, t) == t
  {
    MatchesAdvance(r, t);
    if forall p: nat :: Matches(r, t)(p).None? {
      NoMatchUnchanged(Matches(r, t), Renders(r, t), t, 0);
    }
  }

  /** `re.subn(pattern, repl, t, count=1)`: the new text and the number of substitutions. */
  function ReplaceOnce(r: Rule, t: string): (res: (string, nat))
    ensures res.1 <= 1
    ensures res.1 == 0 <==> forall p: nat :: Matches(r, t)(p).None?
    ensures res.1 == 0 ==> res.0 == t
    ensures res.1 == 1 ==>
      exists p: nat :: Matches(r, t)(p).Some? && (forall q: nat :: q < p ==> Matches(r, t)(q).None?)
        && var h := Matches(r, t)(p).value;
           res.0 == t[..p] + Renders(r, t)(h) + t[h.end..]
  {
    MatchesAdvance(r, t);
    ReplaceFirst(Matches(r, t), Renders(r, t), t)
  }

  /** A single substitution that happened was at the first position with a match. */
  lemma OnceAt(r: Rule, t: string) returns (p: nat)
    requires ReplaceOnce(r, t).1 == 1
    ensures Matches(r, t)(p).Some? && forall q: nat :: q < p ==> Matches(r, t)(q).None?
    ensures var h := Matches(r, t)(p).value; ReplaceOnce(r, t) == (t[..p] + Renders(r, t)(h) + t[h.end..], 1)
  {
    MatchesAdvance(r, t);
    var m := Matches(r, t);
    var l := Leftmost(m, |t|, 0);
    assert l.Some?;
    p := l.value.start;
    ReplaceFirstAt(m, Renders(r, t), t, p);
  }
}

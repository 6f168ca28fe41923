/**
 * The two pieces of ECMAScript regular-expression behaviour the patchers
 * depend on beyond matching itself: `String.prototype.replace` with a
 * replacement *string* (the GetSubstitution rules for `$` sequences), and the
 * backslash escaping that `update-photos.mjs` applies to a landmark id.
 */
module JsRegExp {
  import opened Common
  import opened Text

  function DigitValue(c: char): nat
    requires IsDigit(c)
  {
    (c as int) - ('0' as int)
  }

  /**
   * Expansion of a replacement template. `str` is the whole subject string,
   * `pos` where the match starts, `matched` the matched text and `captures`
   * the capture groups in order. `$$` is a dollar sign, `$&` the match, `` $` ``
   * the text before it, `$'` the text after it, `$n` / `$nn` a capture group
   * (a two-digit reference beyond the group count is read as one digit followed
   * by a literal digit); anything else is copied.
   */
  function Substitute(template: string, str: string, pos: nat, matched: string, captures: seq<string>): (r: string)
    requires pos + |matched| <= |str|
    ensures template == "$$" ==> r == "$"
    ensures template == "$&" ==> r == matched
    ensures template == "$`" ==> r == str[..pos]
    ensures template == "$'" ==> r == str[pos + |matched|..]
    ensures |template| == 2 && template[0] == '$' && IsDigit(template[1]) && 1 <= DigitValue(template[1]) <= |captures| ==>
      r == captures[DigitValue(template[1]) - 1]
    decreases |template|
  {
    if |template| == 0 then ""
    else if template[0] != '$' || |template| == 1 then
      [template[0]] + Substitute(template[1..], str, pos, matched, captures)
    else
      var c := template[1];
      if c == '$' then "$" + Substitute(template[2..], str, pos, matched, captures)
      else if c == '&' then matched + Substitute(template[2..], str, pos, matched, captures)
      else if c == '`' then str[..pos] + Substitute(template[2..], str, pos, matched, captures)
      else if c == '\'' then str[pos + |matched|..] + Substitute(template[2..], str, pos, matched, captures)
      else if IsDigit(c) then
        if |template| >= 3 && IsDigit(template[2])
           && 1 <= 10 * DigitValue(c) + DigitValue(template[2]) <= |captures|
        then
          captures[10 * DigitValue(c) + DigitValue(template[2]) - 1]
          + Substitute(template[3..], str, pos, matched, captures)
        else if 1 <= DigitValue(c) <= |captures| then
          captures[DigitValue(c) - 1] + Substitute(template[2..], str, pos, matched, captures)
        else
          template[..2] + Substitute(template[2..], str, pos, matched, captures)
      else "$" + Substitute(template[1..], str, pos, matched, captures)
  }

  /** A template without `$` is inserted verbatim. */
  lemma {:induction false} SubstituteLiteral(template: string, str: string, pos: nat, matched: string, captures: seq<string>)
    requires pos + |matched| <= |str|
    requires Lacks(template, '$')
    ensures Substitute(template, str, pos, matched, captures) == template
    decreases |template|
  {
    if |template| > 0 {
      SubstituteLiteral(template[1..], str, pos, matched, captures);
    }
  }

  /** A literal prefix without `$` is copied and the rest is expanded on its own. */
  lemma {:induction false} SubstituteAppend(lit: string, rest: string, str: string, pos: nat, matched: string, captures: seq<string>)
    requires pos + |matched| <= |str|
    requires Lacks(lit, '$')
    ensures Substitute(lit + rest, str, pos, matched, captures) == lit + Substitute(rest, str, pos, matched, captures)
    decreases |lit|
  {
    if |lit| == 0 {
      assert lit + rest == rest;
    } else {
      assert (lit + rest)[0] == lit[0] && (lit + rest)[1..] == lit[1..] + rest;
      SubstituteAppend(lit[1..], rest, str, pos, matched, captures);
      assert lit == [lit[0]] + lit[1..];
    }
  }

  /** The regex syntax characters plus `-` and `/`: the class `[-\/\\^$*+?.()|[\]{}]`. */
  predicate IsEscaped(c: char) {
    c in "-/\\^$*+?.()|[]{}"
  }

  /** `id.replace(/[-\/\\^$*+?.()|[\]{}]/g, '\\$&')`. */
  function EscapeRegExp(id: string): (r: string)
    ensures |r| >= |id|
    ensures (forall i :: 0 <= i < |id| ==> !IsEscaped(id[i])) ==> r == id
  {
    if |id| == 0 then ""
    else (if IsEscaped(id[0]) then ['\\', id[0]] else [id[0]]) + EscapeRegExp(id[1..])
  }

  /** ECMAScript SyntaxCharacter: the characters that are not literal in a pattern. */
  predicate IsSyntaxChar(c: char) {
    c in "^$\\.*+?()[]{}|"
  }

  /**
   * The string a pattern made only of literal characters and identity escapes
   * (`\` followed by a syntax character, `/` or `-`) matches, or `None` if the
   * pattern contains anything else.
   */
  function LiteralText(pattern: string): Option<string>
    decreases |pattern|
  {
    if |pattern| == 0 then Some("")
    else if pattern[0] == '\\' then
      if |pattern| >= 2 && IsEscaped(pattern[1]) then
        match LiteralText(pattern[2..])
        case Some(s) => Some([pattern[1]] + s)
        case None => None
      else None
    else if IsSyntaxChar(pattern[0]) then None
    else
      match LiteralText(pattern[1..])
      case Some(s) => Some([pattern[0]] + s)
      case None => None
  }

  /** After escaping, every character of the id is matched literally. */
  lemma {:induction false} EscapedIdIsLiteral(id: string)
    ensures LiteralText(EscapeRegExp(id)) == Some(id)
  {
    if |id| > 0 {
      EscapedIdIsLiteral(id[1..]);
      var e := EscapeRegExp(id);
      if IsEscaped(id[0]) {
        assert e[2..] == EscapeRegExp(id[1..]);
      } else {
        assert e[1..] == EscapeRegExp(id[1..]);
      }
      assert [id[0]] + id[1..] == id;
    }
  }
}

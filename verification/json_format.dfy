/** The two string rewrites of the JSON formatter: detecting the indentation
    of an existing manifest, and re-indenting freshly encoded JSON with empty
    arrays turned into empty objects. Composer's own pretty printer, which
    runs first when asked to, is not part of this model. */
module JsonFormat {
  import Strings

  /** The indentation Composer's pretty printer produces. */
  const DefaultIndent: nat := 4

  /** The characters PCRE's `\s` matches: space, tab, line feed, vertical
      tab, form feed and carriage return. */
  predicate Space(c: char) {
    c == ' ' || c == '\t' || c == '\n' || c == '\U{0B}' || c == '\U{0C}' || c == '\r'
  }

  // ---------------------------------------------------------------------
  // Indent detection
  // ---------------------------------------------------------------------

  /** The pattern `^[{[][\r\n]([ ]+)["']` matches `t` with a group of `n`
      spaces: an opening bracket, a line break, `n > 0` spaces, a quote. */
  predicate IndentMatch(t: string, n: nat) {
    0 < n && n + 3 <= |t|
    && (t[0] == '{' || t[0] == '[')
    && (t[1] == '\r' || t[1] == '\n')
    && (forall k :: 2 <= k < n + 2 ==> t[k] == ' ')
    && (t[n + 2] == '"' || t[n + 2] == '\'')
  }

  /** The pattern matches with at most one group length. */
  lemma IndentMatchUnique(t: string, n: nat, m: nat)
    requires IndentMatch(t, n) && IndentMatch(t, m)
    ensures n == m
  {
  }

  /** The end of the run of spaces that starts at `i`. */
  function SpacesEnd(t: string, i: nat): (e: nat)
    requires i <= |t|
    ensures i <= e <= |t|
    ensures forall k :: i <= k < e ==> t[k] == ' '
    ensures e < |t| ==> t[e] != ' '
    decreases |t| - i
  {
    if i < |t| && t[i] == ' ' then SpacesEnd(t, i + 1) else i
  }

  /** `getIndent`: the length of the space run of the first member line of
      the trimmed content, or the default indentation when the content does
      not open that way. */
  function GetIndent(content: string): (r: nat)
    ensures (exists n :: IndentMatch(Strings.TrimSpace(content), n))
              ==> IndentMatch(Strings.TrimSpace(content), r)
    ensures (forall n :: !IndentMatch(Strings.TrimSpace(content), n)) ==> r == DefaultIndent
  {
    var t := Strings.TrimSpace(content);
    if |t| >= 2 && (t[0] == '{' || t[0] == '[') && (t[1] == '\r' || t[1] == '\n') then
      var e := SpacesEnd(t, 2);
      if e > 2 && e < |t| && (t[e] == '"' || t[e] == '\'') then
        assert IndentMatch(t, e - 2);
        e - 2
      else
        assert forall n: nat :: IndentMatch(t, n) ==> t[n + 2] != ' ' && n + 2 >= e;
        DefaultIndent
    else
      DefaultIndent
  }

  /** A manifest whose first member line is indented by `n` spaces reports
      an indentation of `n`, whatever follows. */
  lemma IndentOfFirstMember(n: nat, rest: string)
    requires n > 0
    ensures GetIndent("{\n" + Strings.Repeat(' ', n) + "\"" + rest) == n
  {
    var p := "{\n" + Strings.Repeat(' ', n) + "\"";
    var content := p + rest;
    Strings.TrimLeftStops(content, Strings.TrimSet);
    Strings.TrimRightAppend(p, rest, Strings.TrimSet);
    var t := Strings.TrimSpace(content);
    assert t == p + Strings.TrimRight(rest, Strings.TrimSet);
    assert IndentMatch(t, n);
    IndentMatchUnique(t, n, GetIndent(content));
  }

  // ---------------------------------------------------------------------
  // Re-indentation
  // ---------------------------------------------------------------------

  /** The four spaces of one indentation level of the encoder. */
  const Level: string := "    "

  /** `str_replace('    ', sprintf('%<indent>s', ''), json)` unless the
      indentation is already four; `sprintf` pads the empty string to
      `indent` spaces. */
  function Reindent(json: string, indent: nat): (r: string)
    ensures indent == DefaultIndent ==> r == json
  {
    if indent != DefaultIndent then Strings.ReplaceAll(json, Level, Strings.Repeat(' ', indent)) else json
  }

  /** `k > 0` levels of four spaces open with one level. */
  lemma LevelHead(k: nat, rest: string)
    requires k > 0
    ensures Strings.StartsWith(Strings.Repeat(' ', 4 * k) + rest, Level)
    ensures (Strings.Repeat(' ', 4 * k) + rest)[4..] == Strings.Repeat(' ', 4 * (k - 1)) + rest
  {
    var s := Strings.Repeat(' ', 4 * k) + rest;
    assert s[..4] == Level;
  }

  lemma RepeatAdd(c: char, a: nat, b: nat)
    ensures Strings.Repeat(c, a + b) == Strings.Repeat(c, a) + Strings.Repeat(c, b)
  {
  }

  /** `k` levels of four spaces at the head of the text become `k` levels of
      `indent` spaces; the rest is rewritten on its own. */
  lemma {:induction false} ReindentLeading(k: nat, rest: string, indent: nat)
    requires indent != DefaultIndent
    ensures Reindent(Strings.Repeat(' ', 4 * k) + rest, indent)
            == Strings.Repeat(' ', indent * k) + Reindent(rest, indent)
    decreases k
  {
    if k > 0 {
      LevelHead(k, rest);
      ReindentLeading(k - 1, rest, indent);
      RepeatAdd(' ', indent, indent * (k - 1));
      hide Strings.Repeat;
      assert indent * k == indent + indent * (k - 1);
    } else {
      assert Strings.Repeat(' ', 4 * k) + rest == rest;
    }
  }

  /** Text without a run of four spaces is left as it is. */
  lemma ReindentNoLevel(json: string, indent: nat)
    requires !Strings.Contains(json, Level)
    ensures Reindent(json, indent) == json
  {
    if indent != DefaultIndent {
      Strings.ReplaceAllAbsent(json, Level, Strings.Repeat(' ', indent));
    }
  }

  // ---------------------------------------------------------------------
  // Empty arrays as objects
  // ---------------------------------------------------------------------

  /** The pattern `:\s\[\]` occurs at `i`. */
  predicate EmptyArrayAt(s: string, i: int) {
    0 <= i && i + 4 <= |s|
    && s[i] == ':' && Space(s[i + 1]) && s[i + 2] == '[' && s[i + 3] == ']'
  }

  /** No occurrence of the pattern is left. */
  predicate NoEmptyArray(s: string) {
    forall i :: 0 <= i < |s| ==> !EmptyArrayAt(s, i)
  }

  /** Occurrences of the pattern never overlap: each character of one is
      not the colon that would start another. */
  lemma EmptyArraysApart(s: string, i: int, j: int)
    requires EmptyArrayAt(s, i) && EmptyArrayAt(s, j) && i <= j
    ensures i == j || i + 4 <= j
  {
  }

  /** The character `preg_replace` leaves at position `i`, read off the
      occurrences of the pattern around it: the matching position inside
      `: {}` when `i` lies in an occurrence, the original character
      otherwise. */
  function RewrittenChar(s: string, i: int): char
    requires 0 <= i < |s|
  {
    if EmptyArrayAt(s, i) then ':'
    else if EmptyArrayAt(s, i - 1) then ' '
    else if EmptyArrayAt(s, i - 2) then '{'
    else if EmptyArrayAt(s, i - 3) then '}'
    else s[i]
  }

  /** `preg_replace('/\:\s\[\]/', ': {}', s)`: a left-to-right scan that
      replaces each occurrence of the pattern and resumes after it. */
  function EmptyArraysAsObjects(s: string): (r: string)
    ensures |r| == |s|
    decreases |s|
  {
    if |s| < 4 then s
    else if EmptyArrayAt(s, 0) then ": {}" + EmptyArraysAsObjects(s[4..])
    else [s[0]] + EmptyArraysAsObjects(s[1..])
  }

  lemma ShiftEmptyArray(s: string, d: nat, i: int)
    requires d <= |s|
    ensures EmptyArrayAt(s[d..], i) <==> i >= 0 && EmptyArrayAt(s, i + d)
  {
  }

  /** The scan agrees, character by character, with the rewrite read off the
      occurrences of the pattern. */
  lemma {:induction false} EmptyArraysPointwise(s: string)
    ensures forall i :: 0 <= i < |s| ==> EmptyArraysAsObjects(s)[i] == RewrittenChar(s, i)
    decreases |s|
  {
    var r := EmptyArraysAsObjects(s);
    if |s| < 4 {
      assert forall i :: !EmptyArrayAt(s, i);
    } else if EmptyArrayAt(s, 0) {
      var t := s[4..];
      EmptyArraysPointwise(t);
      forall i | 0 <= i < |s|
        ensures r[i] == RewrittenChar(s, i)
      {
        if i >= 4 {
          ShiftEmptyArray(s, 4, i - 4);
          ShiftEmptyArray(s, 4, i - 5);
          ShiftEmptyArray(s, 4, i - 6);
          ShiftEmptyArray(s, 4, i - 7);
          assert r[i] == EmptyArraysAsObjects(t)[i - 4];
        }
      }
    } else {
      var t := s[1..];
      EmptyArraysPointwise(t);
      forall i | 0 <= i < |s|
        ensures r[i] == RewrittenChar(s, i)
      {
        if i >= 1 {
          ShiftEmptyArray(s, 1, i - 1);
          ShiftEmptyArray(s, 1, i - 2);
          ShiftEmptyArray(s, 1, i - 3);
          ShiftEmptyArray(s, 1, i - 4);
          assert r[i] == EmptyArraysAsObjects(t)[i - 1];
        }
      }
    }
  }

  /** After the rewrite no `:` followed by a blank and `[]` is left. */
  lemma EmptyArraysGone(s: string)
    ensures NoEmptyArray(EmptyArraysAsObjects(s))
  {
    var r := EmptyArraysAsObjects(s);
    EmptyArraysPointwise(s);
    forall i | 0 <= i < |r|
      ensures !EmptyArrayAt(r, i)
    {
      if i + 4 <= |r| {
        assert r[i] == RewrittenChar(s, i) && r[i + 1] == RewrittenChar(s, i + 1);
        assert r[i + 2] == RewrittenChar(s, i + 2) && r[i + 3] == RewrittenChar(s, i + 3);
      }
    }
  }

  /** Text without an occurrence of the pattern is left as it is. */
  lemma EmptyArraysNone(s: string)
    requires NoEmptyArray(s)
    ensures EmptyArraysAsObjects(s) == s
  {
    EmptyArraysPointwise(s);
  }

  /** Rewriting twice is rewriting once. */
  lemma EmptyArraysIdempotent(s: string)
    ensures EmptyArraysAsObjects(EmptyArraysAsObjects(s)) == EmptyArraysAsObjects(s)
  {
    EmptyArraysGone(s);
    EmptyArraysNone(EmptyArraysAsObjects(s));
  }

  /** `format($json, $indent, false)`: the indentation rewrite, then the
      empty-array rewrite. */
  function Format(json: string, indent: nat): (r: string)
    ensures NoEmptyArray(r)
    ensures indent == DefaultIndent ==> r == EmptyArraysAsObjects(json)
  {
    EmptyArraysGone(Reindent(json, indent));
    EmptyArraysAsObjects(Reindent(json, indent))
  }
}

/** The helpers of `SemverUtil`, which rewrite npm-style version text
    (`1.2.3-rc.2`, `1.x.x-dev`, `20170124.1`) into the syntax Composer
    understands. Each regular expression is spelled out as a scanning
    function that follows PCRE's leftmost-first semantics. */
module SemverUtil {
  import opened Wrappers
  import opened Strings

  /** A character a version number of the prefix pattern may contain. */
  predicate NumberChar(c: char) {
    IsDigit(c) || c == 'x' || c == '*'
  }

  /** Where a match of `([0-9]+|x|\*)` starting at `i` ends. The digits are
      taken greedily; no shorter run could do better, since whatever follows
      a number in the prefix pattern is never a digit. */
  function NumberEnd(s: string, i: nat): (r: Option<nat>)
    ensures r.Some? ==> i < r.value <= |s|
    ensures r.Some? ==> forall k :: i <= k < r.value ==> NumberChar(s[k])
    ensures r.None? <==> i >= |s| || !NumberChar(s[i])
  {
    if i < |s| && IsDigit(s[i]) then Some(DigitsEnd(s, i))
    else if i < |s| && (s[i] == 'x' || s[i] == '*') then Some(i + 1)
    else None
  }

  /** The first position from `i` on that does not hold a digit. */
  function DigitsEnd(s: string, i: nat): (r: nat)
    requires i <= |s|
    ensures i <= r <= |s|
    ensures forall k :: i <= k < r ==> IsDigit(s[k])
    ensures r < |s| ==> !IsDigit(s[r])
    decreases |s| - i
  {
    if i < |s| && IsDigit(s[i]) then DigitsEnd(s, i + 1) else i
  }

  /** The suffix pattern `([a-zA-Z]+|(\-|\+)[a-zA-Z]+|(\-|\+)[0-9]+)` matches at `j`. */
  predicate SuffixAt(s: string, j: nat) {
    j < |s| &&
    (IsLetter(s[j]) ||
     ((s[j] == '-' || s[j] == '+') && j + 1 < |s| && (IsLetter(s[j + 1]) || IsDigit(s[j + 1]))))
  }

  /** Group 1 of `createPattern(suffix)` on `s`: the version number in front of
      a tag, trying `N`, then `N.N`, then `N.N.N`, in the order of the
      alternation; `None` when the pattern does not match. */
  function VersionPrefix(s: string): (r: Option<string>)
    ensures r.Some? ==> StartsWith(s, r.value) && SuffixAt(s, |r.value|)
    ensures r.Some? ==> |r.value| > 0 && forall k :: 0 <= k < |r.value| ==> NumberChar(r.value[k]) || r.value[k] == '.'
  {
    var e1 := NumberEnd(s, 0);
    if e1.None? then None
    else if SuffixAt(s, e1.value) then Some(s[..e1.value])
    else if !(e1.value < |s| && s[e1.value] == '.') then None
    else
      var e2 := NumberEnd(s, e1.value + 1);
      if e2.None? then None
      else if SuffixAt(s, e2.value) then Some(s[..e2.value])
      else if !(e2.value < |s| && s[e2.value] == '.') then None
      else
        var e3 := NumberEnd(s, e2.value + 1);
        if e3.Some? && SuffixAt(s, e3.value) then Some(s[..e3.value]) else None
  }

  /** One number of the prefix pattern: a run of digits, `x` or `*`. */
  predicate IsNumber(n: string) {
    (|n| > 0 && AllDigits(n)) || n == "x" || n == "*"
  }

  /** `count` numbers joined by single dots, and nothing else. */
  predicate Dotted(p: string, count: nat)
    decreases count
  {
    var e := DotEnd(p, 0);
    if count <= 1 then count == 1 && e == |p| && IsNumber(p)
    else e < |p| && IsNumber(p[..e]) && Dotted(p[e + 1..], count - 1)
  }

  /** The alternation `N|N.N|N.N.N` of the prefix pattern matches all of `p`. */
  predicate VersionShape(p: string) {
    Dotted(p, 1) || Dotted(p, 2) || Dotted(p, 3)
  }

  /** The prefix pattern followed by a tag matches `s` exactly at the
      prefix `VersionPrefix` finds: a prefix of `s` is one, two or three
      numbers joined by dots with a tag after it precisely when it is the
      prefix found. So `None` means no prefix of that shape has a tag after
      it, and at most one prefix ever does. */
  lemma VersionPrefixExact(s: string, n: nat)
    requires n <= |s|
    ensures VersionShape(s[..n]) && SuffixAt(s, n) <==> VersionPrefix(s) == Some(s[..n])
  {
    var p := s[..n];
    if VersionPrefix(s) == Some(p) {
      PrefixFoundShape(s);
    }
    if VersionShape(p) && SuffixAt(s, n) {
      ShapeFound(s, n);
    }
  }

  /** What `VersionPrefix` finds has the shape. */
  lemma PrefixFoundShape(s: string)
    requires VersionPrefix(s).Some?
    ensures VersionShape(VersionPrefix(s).value)
  {
    var e1 := NumberEnd(s, 0).value;
    if SuffixAt(s, e1) {
      assert VersionPrefix(s).value == s[..e1];
      hide VersionPrefix;
      DottedNumber(s, 0, e1);
      assert s[..e1] == s[0..e1];
    } else {
      var e2 := NumberEnd(s, e1 + 1).value;
      if SuffixAt(s, e2) {
        assert VersionPrefix(s).value == s[..e2];
        hide VersionPrefix;
        DottedTwo(s, 0, e1, e2);
        assert s[..e2] == s[0..e2];
      } else {
        var e3 := NumberEnd(s, e2 + 1).value;
        assert VersionPrefix(s).value == s[..e3];
        hide VersionPrefix;
        DottedThree(s, e1, e2, e3);
      }
    }
  }

  /** What `NumberEnd` reads is a one-number shape. */
  lemma DottedNumber(s: string, i: nat, j: nat)
    requires NumberEnd(s, i) == Some(j)
    ensures Dotted(s[i..j], 1)
  {
    NumberEndShape(s, i, j);
    DottedOne(s[i..j]);
  }

  /** Two numbers read from `i` with a dot between them are a two-number
      shape. */
  lemma DottedTwo(s: string, i: nat, e1: nat, e2: nat)
    requires NumberEnd(s, i) == Some(e1) && e1 < |s| && s[e1] == '.'
    requires NumberEnd(s, e1 + 1) == Some(e2)
    ensures Dotted(s[i..e2], 2)
  {
    NumberEndShape(s, i, e1);
    DottedNumber(s, e1 + 1, e2);
    DottedJoinAt(s, i, e1, e2, 1);
  }

  /** Three numbers read with dots between them are a three-number shape. */
  lemma DottedThree(s: string, e1: nat, e2: nat, e3: nat)
    requires NumberEnd(s, 0) == Some(e1) && e1 < |s| && s[e1] == '.'
    requires NumberEnd(s, e1 + 1) == Some(e2) && e2 < |s| && s[e2] == '.'
    requires NumberEnd(s, e2 + 1) == Some(e3)
    ensures Dotted(s[..e3], 3)
  {
    NumberEndShape(s, 0, e1);
    DottedTwo(s, e1 + 1, e2, e3);
    DottedJoinAt(s, 0, e1, e3, 2);
    assert s[..e3] == s[0..e3];
  }

  /** `DottedJoin` on slices of one text. */
  lemma DottedJoinAt(s: string, i: nat, e: nat, n: nat, count: nat)
    requires i <= e < n <= |s| && s[e] == '.' && count >= 1
    requires IsNumber(s[i..e]) && '.' !in s[i..e] && Dotted(s[e + 1..n], count)
    ensures Dotted(s[i..n], count + 1)
  {
    hide Dotted, IsNumber;
    DottedJoin(s[i..e], s[e + 1..n], count);
    assert s[i..n] == s[i..e] + "." + s[e + 1..n];
  }

  /** A prefix of the shape with a tag after it is what `VersionPrefix`
      finds. */
  lemma ShapeFound(s: string, n: nat)
    requires n <= |s| && VersionShape(s[..n]) && SuffixAt(s, n)
    ensures VersionPrefix(s) == Some(s[..n])
  {
    if Dotted(s[..n], 1) {
      ShapeFoundOne(s, n);
    } else {
      ShapeFoundMore(s, n, if Dotted(s[..n], 2) then 2 else 3);
    }
  }

  lemma ShapeFoundOne(s: string, n: nat)
    requires n <= |s| && Dotted(s[..n], 1) && SuffixAt(s, n)
    ensures VersionPrefix(s) == Some(s[..n])
  {
    hide VersionPrefix;
    DottedNumberOnly(s[..n]);
    assert s[..n] == s[0..n];
    NumberEndMatch(s, 0, n);
    FoundOne(s, n);
  }

  lemma ShapeFoundMore(s: string, n: nat, count: nat)
    requires n <= |s| && (count == 2 || count == 3) && Dotted(s[..n], count) && SuffixAt(s, n)
    ensures VersionPrefix(s) == Some(s[..n])
  {
    hide VersionPrefix;
    var p := s[..n];
    assert !IsDigit(s[n]);
    DottedHead(p, count);
    hide Dotted, DotEnd;
    var e := DotEnd(p, 0);
    assert p[..e] == s[0..e] && p[e + 1..] == s[e + 1..n];
    NumberEndMatch(s, 0, e);
    if count == 2 {
      DottedNumberOnly(s[e + 1..n]);
      NumberEndMatch(s, e + 1, n);
      FoundTwo(s, e, n);
    } else {
      ShapeFoundTail(s, e, n);
      FoundThree(s, e, NumberEnd(s, e + 1).value, n);
    }
  }

  /** A one-number shape is a number. */
  lemma DottedNumberOnly(q: string)
    requires Dotted(q, 1)
    ensures IsNumber(q)
  {
  }

  /** The first number and dot of a shape of two or three numbers. */
  lemma DottedHead(p: string, count: nat)
    requires Dotted(p, count) && count >= 2
    ensures var e := DotEnd(p, 0);
      e < |p| && p[e] == '.' && IsNumber(p[..e]) && '.' !in p[..e] && Dotted(p[e + 1..], count - 1)
  {
  }

  /** The last two numbers of a three-number shape from `e + 1` to `n`. */
  lemma ShapeFoundTail(s: string, e: nat, n: nat)
    requires e < n < |s| && !IsDigit(s[n]) && Dotted(s[e + 1..n], 2)
    ensures NumberEnd(s, e + 1).Some?
    ensures var f := NumberEnd(s, e + 1).value;
      f < |s| && s[f] == '.' && NumberEnd(s, f + 1) == Some(n)
  {
    var q := s[e + 1..n];
    var f := DotEnd(q, 0);
    assert q[..f] == s[e + 1..e + 1 + f];
    NumberEndMatch(s, e + 1, e + 1 + f);
    assert q[f + 1..] == s[e + 2 + f..n];
    NumberEndMatch(s, e + 2 + f, n);
  }

  /** One number read up to a tag is the prefix found. */
  lemma FoundOne(s: string, n: nat)
    requires NumberEnd(s, 0) == Some(n) && SuffixAt(s, n)
    ensures VersionPrefix(s) == Some(s[..n])
  {
  }

  /** Two numbers read up to a tag, with a dot between them, are the prefix
      found. */
  lemma FoundTwo(s: string, e: nat, n: nat)
    requires NumberEnd(s, 0) == Some(e) && e < |s| && s[e] == '.'
    requires NumberEnd(s, e + 1) == Some(n) && SuffixAt(s, n)
    ensures VersionPrefix(s) == Some(s[..n])
  {
  }

  /** Three numbers read up to a tag, with dots between them, are the prefix
      found. */
  lemma FoundThree(s: string, e: nat, f: nat, n: nat)
    requires NumberEnd(s, 0) == Some(e) && e < |s| && s[e] == '.'
    requires NumberEnd(s, e + 1) == Some(f) && f < |s| && s[f] == '.'
    requires NumberEnd(s, f + 1) == Some(n) && SuffixAt(s, n)
    ensures VersionPrefix(s) == Some(s[..n])
  {
  }

  /** A number with a non-digit after it is what `NumberEnd` reads. */
  lemma NumberEndMatch(s: string, i: nat, j: nat)
    requires i < j <= |s|
    requires IsNumber(s[i..j])
    requires j < |s| ==> !IsDigit(s[j])
    ensures NumberEnd(s, i) == Some(j)
  {
    if |s[i..j]| > 0 && AllDigits(s[i..j]) {
      assert IsDigit(s[i..j][0]);
      DigitsEndFrom(s, i, j);
    } else {
      assert s[i..j][0] == s[i];
    }
  }

  /** The digits from `i` end at the first non-digit. */
  lemma {:induction false} DigitsEndFrom(s: string, i: nat, j: nat)
    requires i <= j <= |s|
    requires forall k :: i <= k < j ==> IsDigit(s[k])
    requires j < |s| ==> !IsDigit(s[j])
    ensures DigitsEnd(s, i) == j
    decreases j - i
  {
    if i < j {
      DigitsEndFrom(s, i + 1, j);
    }
  }

  /** What `NumberEnd` reads is one number, without a dot. */
  lemma NumberEndShape(s: string, i: nat, j: nat)
    requires NumberEnd(s, i) == Some(j)
    ensures IsNumber(s[i..j]) && '.' !in s[i..j]
  {
    if !IsDigit(s[i]) {
      assert s[i..j] == [s[i]];
    }
  }

  /** A number without a dot is a one-number shape. */
  lemma DottedOne(a: string)
    requires IsNumber(a) && '.' !in a
    ensures Dotted(a, 1)
  {
    DotEndAt(a, 0, |a|);
  }

  /** A number, a dot and a shape of `count` numbers make a shape of one
      more. */
  lemma DottedJoin(a: string, b: string, count: nat)
    requires IsNumber(a) && '.' !in a && Dotted(b, count) && count >= 1
    ensures Dotted(a + "." + b, count + 1)
  {
    var p := a + "." + b;
    DotEndAt(p, 0, |a|);
    assert p[..|a|] == a;
    assert p[|a| + 1..] == b;
  }

  /** A text of digits and dots alone never carries a tag. */
  lemma DigitsAndDotsUntagged(s: string)
    requires forall k :: 0 <= k < |s| ==> IsDigit(s[k]) || s[k] == '.'
    ensures VersionPrefix(s) == None
  {
    forall j: nat ensures !SuffixAt(s, j) {
    }
  }

  /** The first position from `i` on that does not hold a lower-case letter:
      `^[a-z]+` matches up to there. */
  function LowerEnd(s: string, i: nat): (r: nat)
    requires i <= |s|
    ensures i <= r <= |s|
    ensures forall k :: i <= k < r ==> IsLower(s[k])
    ensures r < |s| ==> !IsLower(s[r])
    decreases |s| - i
  {
    if i < |s| && IsLower(s[i]) then LowerEnd(s, i + 1) else i
  }

  /** Composer's `VersionParser::normalizeStability`: lower case, with `rc`
      written `RC`. */
  function NormalizeStability(s: string): (r: string)
    ensures |r| == |s|
    ensures r == "RC" <==> Lower(s) == "rc"
  {
    var l := Lower(s);
    if l == "rc" then "RC" else l
  }

  /** `cleanVersion`: the type word, the version stem `prefix + "-"`, and the
      text after the type word, read from the lower-cased version. */
  function CleanVersion(lower: string, prefix: string): (r: (string, string, string))
    requires |prefix| <= |lower|
    ensures r.1 == prefix + "-"
    ensures |r.0| + |r.2| <= |lower| - |prefix|
  {
    var rest := lower[|prefix|..];
    var unsigned := if |rest| > 0 && (rest[0] == '-' || rest[0] == '+') then rest[1..] else rest;
    var t := NormalizeStability(unsigned[..LowerEnd(unsigned, 0)]);
    (t, prefix + "-", unsigned[|t|..])
  }

  /** The tag a type word becomes in `matchVersion`, and whether a number
      follows it. */
  function Tag(t: string): (r: (string, bool))
    ensures r.0 in {"dev", "alpha", "beta", "RC", "patch"}
    ensures r.1 <==> r.0 != "dev"
    ensures r.0 == "dev" <==> t == "dev" || t == "snapshot"
    ensures t in {"alpha", "beta", "RC"} ==> r.0 == t
  {
    if t == "dev" || t == "snapshot" then ("dev", false)
    else if t == "a" then ("alpha", true)
    else if t == "b" || t == "pre" then ("beta", true)
    else if t in ["alpha", "beta", "RC"] then (t, true)
    else ("patch", true)
  }

  /** `matchVersion`: the stem with its tag, and whether a number follows. */
  function MatchVersion(version: string, t: string): (r: (string, bool))
    ensures r.0 == version + Tag(t).0 && r.1 == Tag(t).1
  {
    var tag := Tag(t);
    (version + tag.0, tag.1)
  }

  /** `\.[0-9]+$` matches at `i`: `$` also matches before a final newline. */
  predicate DotDigitsToEnd(e: string, i: nat)
    requires i < |e|
  {
    e[i] == '.' && i + 1 < |e| && IsDigit(e[i + 1]) &&
    var j := DigitsEnd(e, i + 1);
    j == |e| || (j == |e| - 1 && e[j] == '\n')
  }

  /** The leftmost match of `[0-9]+\.[0-9]+|[0-9]+|\.[0-9]+$` in `e` from `i` on. */
  function PatchNumberFrom(e: string, i: nat): (r: Option<string>)
    requires i <= |e|
    ensures r.None? <==> forall k :: i <= k < |e| ==> !IsDigit(e[k])
    ensures r.Some? ==> |r.value| > 0
    decreases |e| - i
  {
    if i == |e| then None
    else if IsDigit(e[i]) then
      var j := DigitsEnd(e, i);
      if j + 1 < |e| && e[j] == '.' && IsDigit(e[j + 1]) then Some(e[i..DigitsEnd(e, j + 1)])
      else Some(e[i..j])
    else if DotDigitsToEnd(e, i) then Some(e[i..DigitsEnd(e, i + 1)])
    else PatchNumberFrom(e, i + 1)
  }

  /** The number after the tag; there is one exactly when a digit occurs. */
  function PatchNumber(e: string): (r: Option<string>)
    ensures r.None? <==> forall k :: 0 <= k < |e| ==> !IsDigit(e[k])
  {
    PatchNumberFrom(e, 0)
  }

  /** A run of digits is its own patch number. */
  lemma PatchNumberOfDigits(n: string)
    requires CtypeDigit(n)
    ensures PatchNumber(n) == Some(n)
  {
    assert DigitsEnd(n, 0) == |n|;
    assert n[0..|n|] == n;
  }

  /** `cleanWildcard`: `.x.x` collapses to `.x` until none is left. */
  function CleanWildcard(s: string): (r: string)
    ensures !Contains(r, ".x.x")
    ensures !Contains(s, ".x.x") ==> r == s
    decreases |s|
  {
    if Contains(s, ".x.x") then
      ReplaceAllLength(s, ".x.x", ".x");
      CleanWildcard(ReplaceAll(s, ".x.x", ".x"))
    else s
  }

  /** `convertVersionMetadata`: a number followed by a tag becomes
      `number-tag` with the tag's number (1 when none is written), then the
      wildcards are cleaned. */
  function ConvertVersionMetadata(v: string): (r: string)
    ensures !Contains(r, ".x.x")
    ensures VersionPrefix(v).None? ==> r == CleanWildcard(v)
  {
    var prefix := VersionPrefix(v);
    if prefix.None? then CleanWildcard(v)
    else
      var c := CleanVersion(Lower(v), prefix.value);
      var m := MatchVersion(c.1, c.0);
      var number := PatchNumber(c.2).GetOr("1");
      CleanWildcard(if m.1 then m.0 + number else m.0)
  }

  /** A plain release number made of digits and dots passes through unchanged. */
  lemma PlainVersionUnchanged(v: string)
    requires forall k :: 0 <= k < |v| ==> IsDigit(v[k]) || v[k] == '.'
    ensures ConvertVersionMetadata(v) == v
  {
    DigitsAndDotsUntagged(v);
    assert "x"[0] !in v;
    MissingCharNotContained(v, ".x.x", 1);
  }

  /** `strtolower` leaves a text without capitals alone. */
  lemma LowerOfLower(s: string)
    requires NoUpper(s)
    ensures Lower(s) == s
  {
  }

  /** A release number `a.b.c`. */
  function Release(a: string, b: string, c: string): string {
    a + "." + b + "." + c
  }

  /** A run of digits from `i` to `n` is one version number. */
  lemma NumberAt(s: string, i: nat, n: nat)
    requires i < n <= |s|
    requires forall k :: i <= k < n ==> IsDigit(s[k])
    requires n < |s| ==> !IsDigit(s[n])
    ensures NumberEnd(s, i) == Some(n)
  {
    assert DigitsEnd(s, i) == n;
  }

  /** Where the numbers of a release followed by other text end. */
  lemma ReleaseNumbers(a: string, b: string, c: string, rest: string)
    requires CtypeDigit(a) && CtypeDigit(b) && CtypeDigit(c)
    requires |rest| > 0 && !IsDigit(rest[0])
    ensures var s := Release(a, b, c) + rest;
            NumberEnd(s, 0) == Some(|a|) && s[|a|] == '.' &&
            NumberEnd(s, |a| + 1) == Some(|a| + 1 + |b|) && s[|a| + 1 + |b|] == '.' &&
            NumberEnd(s, |a| + |b| + 2) == Some(|a| + |b| + |c| + 2)
  {
    var s := Release(a, b, c) + rest;
    var e1 := |a|;
    var e2 := e1 + 1 + |b|;
    var e3 := e2 + 1 + |c|;
    assert forall k :: 0 <= k < e1 ==> s[k] == a[k];
    assert s[e1] == '.';
    NumberAt(s, 0, e1);
    assert forall k :: e1 < k < e2 ==> s[k] == b[k - e1 - 1];
    assert s[e2] == '.';
    NumberAt(s, e1 + 1, e2);
    assert forall k :: e2 < k < e3 ==> s[k] == c[k - e2 - 1];
    assert s[e3] == rest[0];
    NumberAt(s, e2 + 1, e3);
  }

  /** The text after a release keeps its tag. */
  lemma ReleaseTail(a: string, b: string, c: string, rest: string)
    requires SuffixAt(rest, 0)
    ensures SuffixAt(Release(a, b, c) + rest, |Release(a, b, c)|)
    ensures (Release(a, b, c) + rest)[..|Release(a, b, c)|] == Release(a, b, c)
  {
    var p := Release(a, b, c);
    var s := p + rest;
    assert s[|p|] == rest[0];
    if |rest| > 1 {
      assert s[|p| + 1] == rest[1];
    }
  }

  /** The version prefix of a release followed by a tag word is the release. */
  lemma ReleasePrefix(a: string, b: string, c: string, rest: string)
    requires CtypeDigit(a) && CtypeDigit(b) && CtypeDigit(c)
    requires SuffixAt(rest, 0)
    ensures VersionPrefix(Release(a, b, c) + rest) == Some(Release(a, b, c))
  {
    hide NumberEnd;
    ReleaseNumbers(a, b, c, rest);
    ReleaseTail(a, b, c, rest);
  }

  /** `^[a-z]+` ends where the lower-case run ends. */
  lemma LowerEndAt(s: string, n: nat)
    requires n <= |s|
    requires forall k :: 0 <= k < n ==> IsLower(s[k])
    requires n < |s| ==> !IsLower(s[n])
    ensures LowerEnd(s, 0) == n
  {
  }

  /** The text after the version prefix, with its sign dropped, is the word
      and the number. */
  lemma SignStripped(p: string, sep: string, w: string, n: string)
    requires sep in {"", "-", "+"}
    requires |w| > 0 && IsLower(w[0])
    ensures var rest := (p + sep + w + n)[|p|..];
            (if |rest| > 0 && (rest[0] == '-' || rest[0] == '+') then rest[1..] else rest) == w + n
  {
    var rest := sep + w + n;
    assert (p + sep + w + n)[|p|..] == rest;
    if sep == "" {
      assert rest == w + n;
    } else {
      assert rest[1..] == w + n;
    }
  }

  /** A lower-case word followed by digits is split where the digits start. */
  lemma WordThenDigits(w: string, n: string)
    requires forall k :: 0 <= k < |w| ==> IsLower(w[k])
    requires n == "" || CtypeDigit(n)
    ensures LowerEnd(w + n, 0) == |w|
    ensures (w + n)[..|w|] == w && (w + n)[|w|..] == n
  {
    var u := w + n;
    assert forall k :: 0 <= k < |w| ==> u[k] == w[k];
    if n != "" {
      assert u[|w|] == n[0];
    }
    LowerEndAt(u, |w|);
  }

  /** Reading the type word and the text after it from a number, an optional
      sign, a lower-case word and an optional run of digits. */
  lemma CleanTagged(p: string, sep: string, w: string, n: string)
    requires sep in {"", "-", "+"}
    requires |w| > 0 && forall k :: 0 <= k < |w| ==> IsLower(w[k])
    requires n == "" || CtypeDigit(n)
    ensures CleanVersion(p + sep + w + n, p) == (NormalizeStability(w), p + "-", n)
  {
    hide NormalizeStability;
    SignStripped(p, sep, w, n);
    WordThenDigits(w, n);
  }

  /** The text `convertVersionMetadata` builds from a version prefix `p`, a
      type word `t` and the text `e` after it, before the wildcards are
      cleaned. */
  function Tagged(p: string, t: string, e: string): string {
    p + "-" + Tag(t).0 + (if Tag(t).1 then PatchNumber(e).GetOr("1") else "")
  }

  /** Once the version prefix and the pieces `cleanVersion` reads are known,
      the conversion is the tagged text with its wildcards cleaned. */
  lemma MetadataOfTagged(v: string, p: string, t: string, e: string)
    requires VersionPrefix(v) == Some(p)
    requires CleanVersion(Lower(v), p) == (t, p + "-", e)
    ensures ConvertVersionMetadata(v) == CleanWildcard(Tagged(p, t, e))
  {
    var m := MatchVersion(p + "-", t);
    var number := PatchNumber(e).GetOr("1");
    if m.1 {
      assert Tagged(p, t, e) == m.0 + number;
    } else {
      assert Tagged(p, t, e) == m.0 + "" == m.0;
    }
  }

  /** The version prefix of a release followed by a lower-case word, with or
      without a sign in front of it, is the release. */
  lemma TaggedReleasePrefix(a: string, b: string, c: string, sep: string, w: string, n: string)
    requires CtypeDigit(a) && CtypeDigit(b) && CtypeDigit(c)
    requires sep in {"", "-", "+"}
    requires |w| > 0 && forall k :: 0 <= k < |w| ==> IsLower(w[k])
    ensures VersionPrefix(Release(a, b, c) + sep + w + n) == Some(Release(a, b, c))
  {
    var rest := sep + w + n;
    assert Release(a, b, c) + sep + w + n == Release(a, b, c) + rest;
    assert SuffixAt(rest, 0) by {
      if sep == "" {
        assert rest[0] == w[0];
      } else {
        assert rest[1] == w[0];
      }
    }
    ReleasePrefix(a, b, c, rest);
  }

  /** A release followed by a tag text has no capitals. */
  lemma TaggedReleaseLower(a: string, b: string, c: string, sep: string, w: string, n: string)
    requires CtypeDigit(a) && CtypeDigit(b) && CtypeDigit(c)
    requires sep in {"", "-", "+"}
    requires forall k :: 0 <= k < |w| ==> IsLower(w[k])
    requires n == "" || CtypeDigit(n)
    ensures Lower(Release(a, b, c) + sep + w + n) == Release(a, b, c) + sep + w + n
  {
    var p := Release(a, b, c);
    assert NoUpper(p) && NoUpper(sep) && NoUpper(w) && NoUpper(n);
    NoUpperAppend(p, sep);
    NoUpperAppend(p + sep, w);
    NoUpperAppend(p + sep + w, n);
    LowerOfLower(p + sep + w + n);
  }

  /** The tagged text of a release has no `x`, so no wildcard to clean. */
  lemma TaggedReleaseClean(p: string, t: string, n: string)
    requires forall k :: 0 <= k < |p| ==> IsDigit(p[k]) || p[k] == '.'
    requires n == "" || CtypeDigit(n)
    ensures CleanWildcard(Tagged(p, t, n)) == Tagged(p, t, n)
  {
    var tag := Tag(t);
    var number := PatchNumber(n).GetOr("1");
    if n != "" {
      PatchNumberOfDigits(n);
    }
    assert NoX(p) && NoX("-") && NoX(tag.0) && NoX(number) && NoX("");
    NoXAppend(p, "-");
    NoXAppend(p + "-", tag.0);
    NoXAppend(p + "-" + tag.0, if tag.1 then number else "");
    MissingCharNotContained(Tagged(p, t, n), ".x.x", 1);
  }

  /** The converted form of a release followed by a lower-case tag word and
      an optional number, with or without a `-` or `+` in front of the word:
      the release, a dash, the tag the word stands for and, unless the tag is
      `dev`, the written number or 1. */
  lemma TaggedRelease(a: string, b: string, c: string, sep: string, w: string, n: string)
    requires CtypeDigit(a) && CtypeDigit(b) && CtypeDigit(c)
    requires sep in {"", "-", "+"}
    requires |w| > 0 && forall k :: 0 <= k < |w| ==> IsLower(w[k])
    requires n == "" || CtypeDigit(n)
    ensures ConvertVersionMetadata(Release(a, b, c) + sep + w + n)
         == Release(a, b, c) + "-" + Tag(NormalizeStability(w)).0
            + (if Tag(NormalizeStability(w)).1 then (if n == "" then "1" else n) else "")
  {
    var p := Release(a, b, c);
    var v := p + sep + w + n;
    TaggedReleasePrefix(a, b, c, sep, w, n);
    TaggedReleaseLower(a, b, c, sep, w, n);
    CleanTagged(p, sep, w, n);
    MetadataOfTagged(v, p, NormalizeStability(w), n);
    assert forall k :: 0 <= k < |p| ==> IsDigit(p[k]) || p[k] == '.' by {
      ReleaseChars(a, b, c);
    }
    TaggedReleaseClean(p, NormalizeStability(w), n);
    if n != "" {
      PatchNumberOfDigits(n);
    }
  }

  lemma ReleaseChars(a: string, b: string, c: string)
    requires CtypeDigit(a) && CtypeDigit(b) && CtypeDigit(c)
    ensures forall k :: 0 <= k < |Release(a, b, c)| ==> IsDigit(Release(a, b, c)[k]) || Release(a, b, c)[k] == '.'
  {
  }

  predicate NoUpper(s: string) {
    forall k :: 0 <= k < |s| ==> !IsUpper(s[k])
  }

  lemma NoUpperAppend(x: string, y: string)
    requires NoUpper(x) && NoUpper(y)
    ensures NoUpper(x + y)
  {
    forall k | 0 <= k < |x + y| ensures !IsUpper((x + y)[k]) {
      if k >= |x| {
        assert (x + y)[k] == y[k - |x|];
      }
    }
  }

  predicate NoX(s: string) {
    'x' !in s
  }

  lemma NoXAppend(x: string, y: string)
    requires NoX(x) && NoX(y)
    ensures NoX(x + y)
  {
  }

  /** `d` padded with zeros on the left to width `w`. */
  function ZeroPad(d: string, w: nat): (r: string)
    ensures |r| == if |d| < w then w else |d|
    ensures AllDigits(d) ==> AllDigits(r)
    decreases w - |d|
  {
    if |d| < w then ZeroPad("0" + d, w) else d
  }

  /** A leading zero does not change the value of a digit string. */
  lemma {:induction false} LeadingZeroValue(d: string)
    requires AllDigits(d)
    ensures AllDigits("0" + d) && DigitValue("0" + d) == DigitValue(d)
    decreases |d|
  {
    if |d| > 0 {
      var s := "0" + d;
      assert s[..|s| - 1] == "0" + d[..|d| - 1];
      LeadingZeroValue(d[..|d| - 1]);
    }
  }

  /** Zero-padding a digit string keeps its value. */
  lemma {:induction false} ZeroPadValue(d: string, w: nat)
    requires CtypeDigit(d)
    ensures CtypeDigit(ZeroPad(d, w)) && DigitValue(ZeroPad(d, w)) == DigitValue(d)
    decreases w - |d|
  {
    if |d| < w {
      LeadingZeroValue(d);
      ZeroPadValue("0" + d, w);
    }
  }

  /** Numbers below 1000 print on at most three digits. */
  lemma DecimalBelow1000(n: nat)
    requires n < 1000
    ensures |Decimal(n)| <= 3
  {
    if n >= 10 {
      assert |Decimal(n / 10)| <= 2 by {
        if n / 10 >= 10 {
          assert n / 10 / 10 < 10;
        }
      }
    }
  }

  /** `sprintf('%03d', n)`: at least three characters, zero-padded after the
      sign of a negative number. */
  function Pad3(n: int): string {
    if n >= 0 then ZeroPad(Decimal(n), 3) else "-" + ZeroPad(Decimal(-n), 2)
  }

  /** Padding prints every number of at most three digits on exactly three
      digits. */
  lemma Pad3Width(n: int)
    requires 0 <= n < 1000
    ensures |Pad3(n)| == 3 && AllDigits(Pad3(n))
  {
    DecimalBelow1000(n);
  }

  /** The `(int)` cast reads back every padded PHP integer. */
  lemma Pad3ReadsBack(n: int)
    requires IntMin <= n <= IntMax
    ensures IntCast(Pad3(n)) == n
  {
    hide Decimal, ZeroPad, IntCast, DigitValue;
    if n >= 0 {
      DecimalRoundTrip(n);
      ZeroPadValue(Decimal(n), 3);
      IntCastDigits(ZeroPad(Decimal(n), 3));
    } else {
      DecimalRoundTrip(-n);
      ZeroPadValue(Decimal(-n), 2);
      IntCastNegativeDigits(ZeroPad(Decimal(-n), 2));
    }
  }

  /** The first position from `i` on that holds a dot, or the length. */
  function DotEnd(s: string, i: nat): (r: nat)
    requires i <= |s|
    ensures i <= r <= |s|
    ensures forall k :: i <= k < r ==> s[k] != '.'
    ensures r < |s| ==> s[r] == '.'
    decreases |s| - i
  {
    if i < |s| && s[i] != '.' then DotEnd(s, i + 1) else i
  }

  /** `convertDateMinorVersion`: the first two fields of `explode('.', minor)`,
      each read with the `(int)` cast and printed on three digits; the
      revision is 0 when there is no second field. */
  function ConvertDateMinorVersion(minor: string): string {
    var e := DotEnd(minor, 0);
    var revision := if e < |minor| then IntCast(minor[e + 1..DotEnd(minor, e + 1)]) else 0;
    "." + Pad3(IntCast(minor[..e])) + Pad3(revision)
  }

  /** `^\d{7,}\.`: at least seven digits, then a dot. */
  predicate IsDateVersion(v: string) {
    var e := DigitsEnd(v, 0);
    e >= 7 && e < |v| && v[e] == '.'
  }

  /** `convertDateVersion`: a date version keeps its date and gets its minor
      part rewritten; anything else is left alone. The first dot is the one
      right after the leading digits. */
  function ConvertDateVersion(v: string): (r: string)
    ensures !IsDateVersion(v) ==> r == v
  {
    if IsDateVersion(v) then
      var e := DigitsEnd(v, 0);
      v[..e] + ConvertDateMinorVersion(v[e + 1..])
    else v
  }

  /** The digits of a date version end where its first non-digit stands. */
  lemma DigitsEndAt(v: string, n: nat)
    requires n <= |v|
    requires forall k :: 0 <= k < n ==> IsDigit(v[k])
    requires n < |v| ==> !IsDigit(v[n])
    ensures DigitsEnd(v, 0) == n
  {
  }

  /** The first dot from `i` on stands where the dot-free run ends. */
  lemma DotEndAt(m: string, i: nat, n: nat)
    requires i <= n <= |m|
    requires forall k :: i <= k < n ==> m[k] != '.'
    requires n < |m| ==> m[n] == '.'
    ensures DotEnd(m, i) == n
    decreases n - i
  {
  }

  lemma DateDigits(date: string, tail: string)
    requires CtypeDigit(date)
    requires |tail| > 0 && tail[0] == '.'
    ensures DigitsEnd(date + tail, 0) == |date|
  {
    var v := date + tail;
    assert forall k :: 0 <= k < |date| ==> v[k] == date[k];
    DigitsEndAt(v, |date|);
  }

  /** A date version is split at the dot after its date. */
  lemma DateSplit(date: string, tail: string)
    requires CtypeDigit(date) && |date| >= 7
    requires |tail| > 0 && tail[0] == '.'
    ensures ConvertDateVersion(date + tail) == date + ConvertDateMinorVersion(tail[1..])
  {
    hide ConvertDateMinorVersion;
    var v := date + tail;
    DateDigits(date, tail);
    assert v[..|date|] == date;
    assert v[|date| + 1..] == tail[1..];
  }

  /** A minor part without a dot is the minor number with revision 0. */
  lemma MinorOnly(m: string)
    requires forall k :: 0 <= k < |m| ==> m[k] != '.'
    ensures ConvertDateMinorVersion(m) == "." + Pad3(IntCast(m)) + Pad3(0)
  {
    DotEndAt(m, 0, |m|);
    assert m[..|m|] == m;
  }

  /** A minor part `x.y` with a dot-free `y` is the minor number `x` and the
      revision `y`. */
  lemma MinorAndRevision(x: string, y: string)
    requires forall k :: 0 <= k < |x| ==> x[k] != '.'
    requires forall k :: 0 <= k < |y| ==> y[k] != '.'
    ensures ConvertDateMinorVersion(x + "." + y) == "." + Pad3(IntCast(x)) + Pad3(IntCast(y))
  {
    var m := x + "." + y;
    DotEndAt(m, 0, |x|);
    DotEndAt(m, |x| + 1, |m|);
    assert m[..|x|] == x;
    assert m[|x| + 1..|m|] == y;
  }

  /** A revision in exponent form is read as the number it denotes:
      `1.+1e5` becomes minor 1 and revision 100000. */
  lemma MinorExponentRevision()
    ensures ConvertDateMinorVersion("1.+1e5") == "." + Pad3(1) + Pad3(100000)
  {
    hide ConvertDateMinorVersion, IntCast;
    assert "1.+1e5" == "1" + "." + "+1e5";
    MinorAndRevision("1", "+1e5");
    IntCastDigits("1");
    assert DigitValue("1") == 1;
    IntCastPlusExponent();
  }

  lemma Pad3Zero()
    ensures Pad3(0) == "000"
  {
    assert Decimal(0) == "0";
    assert ZeroPad("0", 3) == ZeroPad("00", 3) == ZeroPad("000", 3);
  }

  lemma DecimalDotFree(n: nat)
    ensures forall k :: 0 <= k < |Decimal(n)| ==> Decimal(n)[k] != '.'
  {
    assert AllDigits(Decimal(n));
  }
}

/** `SemverConverter::convertVersion`: an npm version constraint turned into
    a Composer one. */
module SemverConverter {
  import opened Wrappers
  import opened Strings
  import SemverUtil

  /** The en dash some packages write instead of a hyphen. */
  const EnDash: char := '\U{2013}'

  /** The leading letter kept aside: a lower-case first letter, unless the
      version starts with `dev-`. */
  function LetterPrefix(v: string): (r: string)
    ensures |r| <= 1 && StartsWith(v, r)
    ensures |r| == 1 <==> |v| > 0 && IsLower(v[0]) && !StartsWith(v, "dev-")
  {
    if |v| > 0 && IsLower(v[0]) && !StartsWith(v, "dev-") then v[..1] else ""
  }

  /** `convertVersion(null | string)`. */
  function ConvertVersion(version: Option<string>): (r: string)
    ensures version == None || version == Some("") ==> r == "*"
    ensures version == Some("latest") ==> r == "default || *"
  {
    if version.None? || version.value == "" then "*"
    else if version.value == "latest" then "default || *"
    else ConvertText(version.value)
  }

  function ConvertText(value: string): string {
      var v := ReplaceAll(value, [EnDash], "-");
      var prefix := LetterPrefix(v);
      prefix + ConvertNumber(v[|prefix|..])
  }

  /** The version once its leading letter is set aside: tags and wildcards
      first, then date versions. */
  function ConvertNumber(v: string): string {
    SemverUtil.ConvertDateVersion(SemverUtil.ConvertVersionMetadata(v))
  }

  /** A version and the same version behind a `v` (or any lower-case letter)
      convert alike but for that letter, unless the version itself starts
      with a lower-case letter other than `dev-`. */
  lemma LetterKept(c: char, s: string)
    requires IsLower(c) && c != 'd'
    requires |s| > 0 && (!IsLower(s[0]) || StartsWith(s, "dev-"))
    ensures ConvertVersion(Some([c] + s)) == [c] + ConvertVersion(Some(s))
  {
    hide ConvertText, StartsWith, IsLower;
    LetterSplit(c, s);
    LetterText(c, s);
  }

  lemma LetterText(c: char, s: string)
    requires IsLower(c) && c != 'd'
    requires |s| > 0 && (!IsLower(s[0]) || StartsWith(s, "dev-"))
    ensures ConvertText([c] + s) == [c] + ConvertText(s)
  {
    hide ConvertNumber, ReplaceAll, LetterPrefix, StartsWith, IsLower;
    LetterSplit(c, s);
  }

  /** How a version behind a letter is taken apart. */
  lemma LetterSplit(c: char, s: string)
    requires IsLower(c) && c != 'd'
    requires |s| > 0 && (!IsLower(s[0]) || StartsWith(s, "dev-"))
    ensures s != "latest" && [c] + s != "latest"
    ensures ReplaceAll([c] + s, [EnDash], "-") == [c] + ReplaceAll(s, [EnDash], "-")
    ensures LetterPrefix([c] + ReplaceAll(s, [EnDash], "-")) == [c]
    ensures ([c] + ReplaceAll(s, [EnDash], "-"))[1..] == ReplaceAll(s, [EnDash], "-")
    ensures LetterPrefix(ReplaceAll(s, [EnDash], "-")) == ""
    ensures ReplaceAll(s, [EnDash], "-")[0..] == ReplaceAll(s, [EnDash], "-")
  {
    var v := ReplaceAll(s, [EnDash], "-");
    ReplaceDashCons(c, s);
    NoLetterPrefix(s);
    var w := [c] + v;
    assert w[0] == c && !StartsWith(w, "dev-");
    assert ([c] + s)[0] == c;
  }

  /** Replacing en dashes passes any other first character through. */
  lemma ReplaceDashCons(c: char, s: string)
    requires c != EnDash
    ensures ReplaceAll([c] + s, [EnDash], "-") == [c] + ReplaceAll(s, [EnDash], "-")
  {
    var t := [c] + s;
    assert t[0] == c && t[1..] == s;
    assert !StartsWith(t, [EnDash]);
  }

  /** A version that does not start with a letter, or starts with `dev-`,
      keeps no letter aside once its en dashes are replaced. */
  lemma NoLetterPrefix(s: string)
    requires |s| > 0 && (!IsLower(s[0]) || StartsWith(s, "dev-"))
    ensures LetterPrefix(ReplaceAll(s, [EnDash], "-")) == ""
  {
    var v := ReplaceAll(s, [EnDash], "-");
    ReplaceCharByChar(s, EnDash, '-');
    assert "-" == ['-'];
    if StartsWith(s, "dev-") {
      assert v[..4] == s[..4];
    }
  }

  /** An en dash reads as a hyphen. */
  lemma EnDashIsHyphen(s: string)
    requires s != "" && s != "latest"
    ensures ConvertVersion(Some(s)) == ConvertVersion(Some(ReplaceAll(s, [EnDash], "-")))
  {
    hide ConvertText;
    DashesReplaced(s);
  }

  /** After the replacement no en dash is left, and the text is still
      neither empty nor `latest`. */
  lemma DashesReplaced(s: string)
    requires s != "" && s != "latest"
    ensures ReplaceAll(s, [EnDash], "-") != ""
    ensures ReplaceAll(s, [EnDash], "-") != "latest"
    ensures ConvertText(ReplaceAll(s, [EnDash], "-")) == ConvertText(s)
  {
    hide ConvertNumber, LetterPrefix;
    var v := ReplaceAll(s, [EnDash], "-");
    ReplaceCharByChar(s, EnDash, '-');
    assert "-" == ['-'];
    ReplaceCharRemovesIt(s, EnDash, "-");
    MissingCharNotContained(v, [EnDash], 0);
    ReplaceAllAbsent(v, [EnDash], "-");
  }
}

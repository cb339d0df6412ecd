/**
 * The string operations the two HTML extractors rely on, written as plain
 * scanners: Python's str.find, str.split, str.replace and str.strip, the
 * tag-removing substitution of the regular expression `<.*?>`, and the
 * element search of `<tag[^>]*>(.*?)</tag>` with DOTALL (and optionally
 * IGNORECASE).
 */
module Text {
  import opened Wrappers

  /** ASCII upper-case letters mapped to lower case; every other character unchanged. */
  function LowerAscii(c: char): char {
    if 'A' <= c <= 'Z' then (c as int + 32) as char else c
  }

  /** Character `a` of the text matches character `p` of a pattern; with `ci`, regardless of ASCII case. */
  predicate CharMatches(a: char, p: char, ci: bool) {
    a == p || (ci && LowerAscii(a) == LowerAscii(p))
  }

  /** `pat` occurs in `s` starting at position `k`. */
  predicate MatchesAt(s: string, pat: string, k: int, ci: bool) {
    0 <= k && k + |pat| <= |s| && forall i :: 0 <= i < |pat| ==> CharMatches(s[k + i], pat[i], ci)
  }

  /** A case-sensitive occurrence is a slice equal to the pattern. */
  lemma MatchesAtSlice(s: string, pat: string, k: int)
    requires MatchesAt(s, pat, k, false)
    ensures s[k..k + |pat|] == pat
  {
    forall i | 0 <= i < |pat| ensures s[k..k + |pat|][i] == pat[i] {
      assert CharMatches(s[k + i], pat[i], false);
    }
  }

  /** An occurrence inside a slice of `s` is an occurrence in `s`, shifted by the slice start. */
  lemma MatchesInSlice(s: string, lo: int, hi: int, pat: string, j: int, ci: bool)
    requires 0 <= lo <= hi <= |s|
    ensures MatchesAt(s[lo..hi], pat, j, ci) ==> MatchesAt(s, pat, lo + j, ci)
  {
    if MatchesAt(s[lo..hi], pat, j, ci) {
      forall i | 0 <= i < |pat| ensures CharMatches(s[lo + j + i], pat[i], ci) {
        assert s[lo..hi][j + i] == s[lo + j + i];
      }
    }
  }

  /** An occurrence in `s` that lies inside a slice is an occurrence in the slice. */
  lemma MatchesIntoSlice(s: string, lo: int, hi: int, pat: string, j: int, ci: bool)
    requires 0 <= lo <= j && j + |pat| <= hi <= |s|
    ensures MatchesAt(s, pat, j, ci) ==> MatchesAt(s[lo..hi], pat, j - lo, ci)
  {
    if MatchesAt(s, pat, j, ci) {
      forall i | 0 <= i < |pat| ensures CharMatches(s[lo..hi][j - lo + i], pat[i], ci) {
        assert s[lo..hi][j - lo + i] == s[j + i];
      }
    }
  }

  /**
   * `s.find(pat, from)`: the first position at or after `from` where `pat`
   * occurs, None (Python's -1) when there is none.
   */
  function Find(s: string, pat: string, from: nat, ci: bool): (r: Option<nat>)
    ensures r.Some? ==> from <= r.value && r.value + |pat| <= |s|
    decreases |s| - from
  {
    if from + |pat| > |s| then None
    else if MatchesAt(s, pat, from, ci) then Some(from)
    else Find(s, pat, from + 1, ci)
  }

  /** The search result is the leftmost occurrence at or after `from`, and None only when there is none. */
  lemma {:induction false} FindSpec(s: string, pat: string, from: nat, ci: bool)
    ensures var r := Find(s, pat, from, ci);
      (r.Some? ==> from <= r.value && MatchesAt(s, pat, r.value, ci)) &&
      (r.Some? ==> forall j :: from <= j < r.value ==> !MatchesAt(s, pat, j, ci)) &&
      (r.None? ==> forall j :: from <= j ==> !MatchesAt(s, pat, j, ci))
    decreases |s| - from
  {
    if from + |pat| > |s| {
    } else if !MatchesAt(s, pat, from, ci) {
      FindSpec(s, pat, from + 1, ci);
    }
  }

  /** A search from `from` stops at `c` when the pattern occurs there and nowhere between. */
  lemma FindExactly(s: string, pat: string, from: nat, c: nat, ci: bool)
    requires from <= c && MatchesAt(s, pat, c, ci)
    requires forall j :: from <= j < c ==> !MatchesAt(s, pat, j, ci)
    ensures Find(s, pat, from, ci) == Some(c)
    decreases c - from
  {
    if from < c {
      FindExactly(s, pat, from + 1, c, ci);
    }
  }

  /** Python's `pat in s` (or, with `ci`, its case-insensitive variant). */
  predicate Contains(s: string, pat: string, ci: bool) {
    Find(s, pat, 0, ci).Some?
  }

  /** `Contains` holds exactly when the pattern occurs somewhere. */
  lemma ContainsIff(s: string, pat: string, ci: bool)
    ensures Contains(s, pat, ci) <==> exists j :: MatchesAt(s, pat, j, ci)
  {
    FindSpec(s, pat, 0, ci);
    if Contains(s, pat, ci) {
      assert MatchesAt(s, pat, Find(s, pat, 0, ci).value, ci);
    }
  }

  /**
   * `s.split(sep)`: the pieces between the non-overlapping occurrences of
   * `sep`, found from left to right.
   */
  function Split(s: string, sep: string): (r: seq<string>)
    requires |sep| > 0
    ensures |r| >= 1
    ensures forall i :: 0 <= i < |r| ==> !Contains(r[i], sep, false)
    decreases |s|
  {
    FindSpec(s, sep, 0, false);
    match Find(s, sep, 0, false)
    case None => [s]
    case Some(k) =>
      var piece := s[..k];
      assert !Contains(piece, sep, false) by {
        ContainsIff(piece, sep, false);
        forall j | MatchesAt(piece, sep, j, false) ensures false {
          MatchesInSlice(s, 0, k, sep, j, false);
        }
      }
      [piece] + Split(s[k + |sep|..], sep)
  }

  /** `sep.join(parts)`. */
  function Join(parts: seq<string>, sep: string): string
  {
    if |parts| == 0 then ""
    else if |parts| == 1 then parts[0]
    else parts[0] + sep + Join(parts[1..], sep)
  }

  /** Splitting and re-joining on the same separator gives back the text. */
  lemma {:induction false} JoinSplit(s: string, sep: string)
    requires |sep| > 0
    ensures Join(Split(s, sep), sep) == s
    decreases |s|
  {
    var f := Find(s, sep, 0, false);
    FindSpec(s, sep, 0, false);
    if f.Some? {
      var k := f.value;
      MatchesAtSlice(s, sep, k);
      var rest := s[k + |sep|..];
      var tail := Split(rest, sep);
      JoinSplit(rest, sep);
      var parts := Split(s, sep);
      assert parts == [s[..k]] + tail;
      assert parts[1..] == tail;
      assert Join(parts, sep) == s[..k] + sep + Join(tail, sep);
      assert s == s[..k] + sep + rest;
    }
  }

  /**
   * `s.replace(target, replacement)`: every non-overlapping occurrence, left
   * to right, replaced. Replacing a pattern that does not occur, or
   * replacing a pattern by itself, changes nothing.
   */
  function Replace(s: string, target: string, replacement: string): (r: string)
    requires |target| > 0
    ensures !Contains(s, target, false) ==> r == s
    ensures replacement == target ==> r == s
  {
    JoinSplit(s, target);
    Join(Split(s, target), replacement)
  }

  /** A replacement no longer than its target never lengthens the text. */
  lemma {:induction false} ReplaceShorter(s: string, target: string, replacement: string)
    requires |target| > 0 && |replacement| <= |target|
    ensures |Replace(s, target, replacement)| <= |s|
    decreases |s|
  {
    match Find(s, target, 0, false)
    case None =>
    case Some(k) =>
      var rest := s[k + |target|..];
      var tail := Split(rest, target);
      ReplaceShorter(rest, target, replacement);
      var parts := Split(s, target);
      assert parts == [s[..k]] + tail;
      assert parts[1..] == tail;
      assert Join(parts, replacement) == s[..k] + replacement + Join(tail, replacement);
  }

  /** `replace` unfolds at the first occurrence: the text before it, the replacement, then the rest of the text replaced. */
  lemma ReplaceFirst(s: string, target: string, replacement: string, k: nat)
    requires |target| > 0 && Find(s, target, 0, false) == Some(k)
    ensures Replace(s, target, replacement) == s[..k] + replacement + Replace(s[k + |target|..], target, replacement)
  {
    var rest := s[k + |target|..];
    var tail := Split(rest, target);
    var parts := Split(s, target);
    assert parts == [s[..k]] + tail;
    assert parts[1..] == tail;
  }

  /** No character of `s` is `c`. */
  predicate Avoids(s: string, c: char) {
    forall k :: 0 <= k < |s| ==> s[k] != c
  }

  /** Pieces and separator that avoid `c` join to a text that avoids `c`. */
  lemma {:induction false} JoinAvoids(xs: seq<string>, sep: string, c: char)
    requires forall i :: 0 <= i < |xs| ==> Avoids(xs[i], c)
    requires Avoids(sep, c)
    ensures Avoids(Join(xs, sep), c)
    decreases |xs|
  {
    if |xs| > 1 {
      JoinAvoids(xs[1..], sep, c);
    }
  }

  /** Trimmed pieces joined by a trimmed, non-empty separator give a trimmed text. */
  lemma {:induction false} JoinTrimmed(xs: seq<string>, sep: string)
    requires forall i :: 0 <= i < |xs| ==> xs[i] == [] || (!IsSpace(xs[i][0]) && !IsSpace(xs[i][|xs[i]| - 1]))
    requires |sep| > 0 && !IsSpace(sep[0]) && !IsSpace(sep[|sep| - 1])
    ensures var j := Join(xs, sep); j == [] || (!IsSpace(j[0]) && !IsSpace(j[|j| - 1]))
    decreases |xs|
  {
    if |xs| > 1 {
      JoinTrimmed(xs[1..], sep);
      var j := Join(xs, sep);
      var x, rest := xs[0], Join(xs[1..], sep);
      assert j == x + sep + rest;
      assert j[0] == (x + sep)[0];
      if rest == [] {
        assert j[|j| - 1] == sep[|sep| - 1];
      } else {
        assert j[|j| - 1] == rest[|rest| - 1];
      }
    }
  }

  /**
   * Every `sep[0]` of a text joined on `sep` starts a separator, so it is
   * followed by `sep[1]`, when the pieces and the rest of the separator
   * avoid `sep[0]`.
   */
  lemma {:induction false} JoinSepFollowed(xs: seq<string>, sep: string)
    requires |sep| >= 2 && Avoids(sep[1..], sep[0])
    requires forall i :: 0 <= i < |xs| ==> Avoids(xs[i], sep[0])
    ensures forall j :: 0 <= j < |Join(xs, sep)| && Join(xs, sep)[j] == sep[0] ==>
      j + 1 < |Join(xs, sep)| && Join(xs, sep)[j + 1] == sep[1]
    decreases |xs|
  {
    if |xs| > 1 {
      JoinSepFollowed(xs[1..], sep);
      var t, x, rest := Join(xs, sep), xs[0], Join(xs[1..], sep);
      assert t == x + sep + rest;
      forall j | 0 <= j < |t| ensures t[j] == sep[0] ==> j + 1 < |t| && t[j + 1] == sep[1] {
        if j < |x| {
          assert t[j] == x[j];
        } else if j < |x| + |sep| {
          if j > |x| {
            assert t[j] == sep[1..][j - |x| - 1];
          } else {
            assert t[j + 1] == sep[1];
          }
        } else {
          var j' := j - |x| - |sep|;
          assert rest[j'] == t[j];
          if t[j] == sep[0] {
            assert t[j + 1] == rest[j' + 1];
          }
        }
      }
    }
  }

  /**
   * Replacing `target` in pieces joined on `target` gives the pieces joined
   * on the replacement, when the pieces and the rest of the target avoid the
   * target's first character: every occurrence is replaced, not only the first.
   */
  lemma {:induction false} ReplaceJoin(xs: seq<string>, target: string, replacement: string)
    requires |target| > 0 && Avoids(target[1..], target[0])
    requires forall i :: 0 <= i < |xs| ==> Avoids(xs[i], target[0])
    ensures Replace(Join(xs, target), target, replacement) == Join(xs, replacement)
    decreases |xs|
  {
    var s := Join(xs, target);
    if |xs| <= 1 {
      assert Avoids(s, target[0]);
      forall j | 0 <= j < |s| ensures !MatchesAt(s, target, j, false) {
        assert !CharMatches(s[j + 0], target[0], false);
      }
      ContainsIff(s, target, false);
    } else {
      var x, rest := xs[0], Join(xs[1..], target);
      assert s == x + target + rest;
      assert MatchesAt(s, target, |x|, false) by {
        forall i | 0 <= i < |target| ensures CharMatches(s[|x| + i], target[i], false) {
          assert s[|x| + i] == target[i];
        }
      }
      forall j | 0 <= j < |x| ensures !MatchesAt(s, target, j, false) {
        assert !CharMatches(s[j + 0], target[0], false);
      }
      FindExactly(s, target, 0, |x|, false);
      ReplaceFirst(s, target, replacement, |x|);
      assert s[..|x|] == x && s[|x| + |target|..] == rest;
      ReplaceJoin(xs[1..], target, replacement);
    }
  }

  /** The characters Python's str.isspace accepts. */
  predicate IsSpace(c: char) {
    var n := c as int;
    (0x09 <= n <= 0x0D) || (0x1C <= n <= 0x20) || n == 0x85 || n == 0xA0 || n == 0x1680
    || (0x2000 <= n <= 0x200A) || n == 0x2028 || n == 0x2029 || n == 0x202F || n == 0x205F
    || n == 0x3000
  }

  /** Length of the whitespace run at the start of `s`. */
  function LeadingSpaces(s: string): (n: nat)
    ensures n <= |s|
    ensures forall i :: 0 <= i < n ==> IsSpace(s[i])
    ensures n < |s| ==> !IsSpace(s[n])
  {
    if s != [] && IsSpace(s[0]) then 1 + LeadingSpaces(s[1..]) else 0
  }

  /** Length of the whitespace run at the end of `s`. */
  function TrailingSpaces(s: string): (n: nat)
    ensures n <= |s|
    ensures forall i :: |s| - n <= i < |s| ==> IsSpace(s[i])
    ensures n < |s| ==> !IsSpace(s[|s| - n - 1])
  {
    if s != [] && IsSpace(s[|s| - 1]) then 1 + TrailingSpaces(s[..|s| - 1]) else 0
  }

  /**
   * `s.strip()`: `s` without its leading and trailing whitespace. The result
   * neither starts nor ends with whitespace, and `s` is the result padded on
   * both sides with whitespace only.
   */
  function Strip(s: string): (r: string)
    ensures r == [] || (!IsSpace(r[0]) && !IsSpace(r[|r| - 1]))
    ensures LeadingSpaces(s) + |r| <= |s|
    ensures s == s[..LeadingSpaces(s)] + r + s[LeadingSpaces(s) + |r|..]
    ensures forall i :: 0 <= i < LeadingSpaces(s) || LeadingSpaces(s) + |r| <= i < |s| ==> IsSpace(s[i])
  {
    var a := LeadingSpaces(s);
    var t := s[a..];
    var r := t[..|t| - TrailingSpaces(t)];
    StripEnds(s, a, t, r);
    StripPadding(s, a, t, r);
    r
  }

  /** The stripped text starts and ends with a character that is not whitespace. */
  lemma StripEnds(s: string, a: nat, t: string, r: string)
    requires a == LeadingSpaces(s) && t == s[a..] && r == t[..|t| - TrailingSpaces(t)]
    ensures r == [] || (!IsSpace(r[0]) && !IsSpace(r[|r| - 1]))
  {
    if r != [] {
      assert r[0] == s[a];
      assert r[|r| - 1] == t[|t| - TrailingSpaces(t) - 1];
    }
  }

  /** The text is the stripped part with whitespace on either side. */
  lemma StripPadding(s: string, a: nat, t: string, r: string)
    requires a == LeadingSpaces(s) && t == s[a..] && r == t[..|t| - TrailingSpaces(t)]
    ensures a + |r| <= |s|
    ensures s == s[..a] + r + s[a + |r|..]
    ensures forall i :: 0 <= i < a || a + |r| <= i < |s| ==> IsSpace(s[i])
  {
    assert r == s[a..a + |r|];
    ThreeParts(s, a, a + |r|);
    SuffixSpaces(s, a, t, |r|);
  }

  /** Whitespace at the end of a suffix `t` of `s` is whitespace at the same place in `s`. */
  lemma SuffixSpaces(s: string, a: nat, t: string, m: nat)
    requires a <= |s| && t == s[a..] && m <= |t|
    requires forall j :: m <= j < |t| ==> IsSpace(t[j])
    ensures forall i :: a + m <= i < |s| ==> IsSpace(s[i])
  {
    forall i | a + m <= i < |s| ensures IsSpace(s[i]) {
      var j := i - a;
      assert t[j] == s[i];
    }
  }

  /** A text is the concatenation of its three slices around two cut points. */
  lemma ThreeParts(s: string, i: nat, j: nat)
    requires i <= j <= |s|
    ensures s == s[..i] + s[i..j] + s[j..]
  {
  }

  /** Text without whitespace at either end is its own strip. */
  lemma StripTrimmed(s: string)
    requires s == [] || (!IsSpace(s[0]) && !IsSpace(s[|s| - 1]))
    ensures Strip(s) == s
  {
    assert LeadingSpaces(s) == 0;
    assert TrailingSpaces(s) == 0;
  }

  /**
   * Position, within `t`, of the `>` that closes a tag whose `<` stands just
   * before `t`: the first `>`, provided no newline comes before it (the `.`
   * of `<.*?>` does not match a newline).
   */
  function TagEnd(t: string): (r: Option<nat>)
    ensures r.Some? ==> r.value < |t| && t[r.value] == '>'
    ensures r.Some? ==> forall k :: 0 <= k < r.value ==> t[k] != '>' && t[k] != '\n'
    ensures r.None? ==> forall k :: 0 <= k < |t| && t[k] == '>' ==> exists m :: 0 <= m < k && t[m] == '\n'
  {
    if t == [] then None
    else if t[0] == '>' then Some(0)
    else if t[0] == '\n' then None
    else match TagEnd(t[1..])
      case None =>
        assert forall k :: 1 <= k < |t| ==> t[k] == t[1..][k - 1];
        None
      case Some(g) => Some(g + 1)
  }

  /**
   * `re.sub(r'<.*?>', '', s)`: every span from a `<` to the next `>` on the
   * same line is removed, scanning from left to right.
   */
  function StripTags(s: string): (r: string)
    ensures |r| <= |s|
    decreases |s|
  {
    if s == [] then []
    else if s[0] == '<' && TagEnd(s[1..]).Some? then
      StripTags(s[TagEnd(s[1..]).value + 2..])
    else
      [s[0]] + StripTags(s[1..])
  }

  /** Tag removal only deletes characters: what is left is a sub-multiset of the input. */
  lemma {:induction false} StripTagsDeletes(s: string)
    ensures multiset(StripTags(s)) <= multiset(s)
    decreases |s|
  {
    if s == [] {
    } else if s[0] == '<' && TagEnd(s[1..]).Some? {
      var k := TagEnd(s[1..]).value + 2;
      assert s == s[..k] + s[k..];
      StripTagsDeletes(s[k..]);
    } else {
      assert s == [s[0]] + s[1..];
      StripTagsDeletes(s[1..]);
    }
  }

  /** No `<` of `s` is followed by a `>` on the same line: the tag pattern finds nothing in `s`. */
  predicate NoTag(s: string) {
    forall i :: 0 <= i < |s| && s[i] == '<' ==> TagEnd(s[i + 1..]).None?
  }

  /** Text in which no `>` precedes the first newline keeps that shape after tag removal. */
  lemma {:induction false} StripTagsKeepsOpenLine(t: string)
    requires TagEnd(t).None?
    ensures TagEnd(StripTags(t)).None?
    decreases |t|
  {
    if t == [] {
    } else if t[0] == '\n' {
      assert StripTags(t) == [t[0]] + StripTags(t[1..]);
    } else {
      assert t[0] != '>';
      assert TagEnd(t[1..]).None?;
      var r := StripTags(t[1..]);
      StripTagsKeepsOpenLine(t[1..]);
      assert StripTags(t) == [t[0]] + r;
      assert ([t[0]] + r)[1..] == r;
    }
  }

  /** Tag removal leaves no tag behind. */
  lemma {:induction false} StripTagsLeavesNoTag(s: string)
    ensures NoTag(StripTags(s))
    decreases |s|
  {
    if s == [] {
    } else if s[0] == '<' && TagEnd(s[1..]).Some? {
      StripTagsLeavesNoTag(s[TagEnd(s[1..]).value + 2..]);
    } else {
      var rest := StripTags(s[1..]);
      StripTagsLeavesNoTag(s[1..]);
      var r := [s[0]] + rest;
      assert StripTags(s) == r;
      forall i | 0 <= i < |r| && r[i] == '<' ensures TagEnd(r[i + 1..]).None? {
        if i == 0 {
          StripTagsKeepsOpenLine(s[1..]);
          assert r[1..] == rest;
        } else {
          assert r[i + 1..] == rest[i..];
          assert rest[i - 1] == '<';
        }
      }
    }
  }

  /** Text without a tag is left unchanged by tag removal. */
  lemma {:induction false} StripTagsFixes(s: string)
    requires NoTag(s)
    ensures StripTags(s) == s
    decreases |s|
  {
    if s != [] {
      assert NoTag(s[1..]) by {
        forall i | 0 <= i < |s[1..]| && s[1..][i] == '<' ensures TagEnd(s[1..][i + 1..]).None? {
          assert s[1..][i + 1..] == s[i + 2..];
        }
      }
      StripTagsFixes(s[1..]);
    }
  }

  /** A tag with no `>` and no newline inside is removed whole, up to its own `>`, and the scan resumes after it. */
  lemma StripTagsDropsTag(a: string, x: string)
    requires Avoids(a, '>') && Avoids(a, '\n')
    ensures StripTags("<" + a + ">" + x) == StripTags(x)
  {
    var s := "<" + a + ">" + x;
    var t := s[1..];
    assert t == a + ">" + x;
    assert t[|a|] == '>';
    assert forall m :: 0 <= m < |a| ==> t[m] == a[m];
    var g := TagEnd(t).value;
    assert g == |a|;
    assert s[g + 2..] == x;
  }

  /** Text with no `<` passes tag removal unchanged, in front of whatever follows it. */
  lemma {:induction false} StripTagsPlainPrefix(x: string, t: string)
    requires Avoids(x, '<')
    ensures StripTags(x + t) == x + StripTags(t)
    decreases |x|
  {
    if x != [] {
      assert (x + t)[0] == x[0] && x[0] != '<';
      assert (x + t)[1..] == x[1..] + t;
      assert StripTags(x + t) == [x[0]] + StripTags(x[1..] + t);
      StripTagsPlainPrefix(x[1..], t);
      assert [x[0]] + (x[1..] + StripTags(t)) == x + StripTags(t);
    } else {
      assert x + t == t;
    }
  }

  /** Removing the tags around a text with no `<` in one element, `<a…>x</b…>`, leaves the text. */
  lemma StripTagsUnwraps(a: string, x: string, b: string)
    requires Avoids(a, '>') && Avoids(a, '\n') && Avoids(b, '>') && Avoids(b, '\n')
    requires Avoids(x, '<')
    ensures StripTags("<" + a + ">" + x + "</" + b + ">") == x
  {
    var close := "</" + b + ">";
    assert "<" + a + ">" + x + "</" + b + ">" == "<" + a + ">" + (x + close);
    assert StripTags("<" + a + ">" + (x + close)) == x + StripTags(close) by {
      StripTagsDropsTag(a, x + close);
      StripTagsPlainPrefix(x, close);
    }
    StripTagsDropsClose(b);
    assert x + [] == x;
  }

  /** A closing tag with no `>` and no newline inside is removed whole. */
  lemma StripTagsDropsClose(b: string)
    requires Avoids(b, '>') && Avoids(b, '\n')
    ensures StripTags("</" + b + ">") == []
  {
    assert "</" + b + ">" == "<" + ("/" + b) + ">" + "";
    assert Avoids("/" + b, '>') && Avoids("/" + b, '\n');
    StripTagsDropsTag("/" + b, "");
  }

  /** Tag removal is idempotent. */
  lemma StripTagsIdempotent(s: string)
    ensures StripTags(StripTags(s)) == StripTags(s)
  {
    StripTagsLeavesNoTag(s);
    StripTagsFixes(StripTags(s));
  }

  /**
   * Where the pattern `<tag[^>]*>(.*?)</tag>` matches when tried at position
   * `i`: the bounds of its group. `[^>]*>` runs to the first `>` after the
   * opening name, and the lazy group ends at the first following closing tag.
   */
  function ElementAt(s: string, tag: string, ci: bool, i: nat): (r: Option<(nat, nat)>)
    ensures r.Some? ==> i < r.value.0 <= r.value.1 && r.value.1 + |tag| + 3 <= |s|
  {
    if !MatchesAt(s, "<" + tag, i, ci) then None
    else match Find(s, ">", i + 1 + |tag|, false)
      case None => None
      case Some(g) =>
        match Find(s, "</" + tag + ">", g + 1, ci)
        case None => None
        case Some(c) => Some((g + 1, c))
  }

  /**
   * A match starts with `<tag`, its group follows a `>` and is followed by
   * the closing tag, and the group does not contain the closing tag.
   */
  lemma ElementAtMatches(s: string, tag: string, ci: bool, i: nat, a: nat, c: nat)
    requires ElementAt(s, tag, ci, i) == Some((a, c))
    ensures MatchesAt(s, "<" + tag, i, ci) && s[a - 1] == '>'
    ensures MatchesAt(s, "</" + tag + ">", c, ci)
    ensures !Contains(s[a..c], "</" + tag + ">", ci)
  {
    var close := "</" + tag + ">";
    var g := Find(s, ">", i + 1 + |tag|, false).value;
    assert c == Find(s, close, g + 1, ci).value && a == g + 1;
    assert MatchesAt(s, ">", g, false) by { FindSpec(s, ">", i + 1 + |tag|, false); }
    assert s[g] == '>' by { assert CharMatches(s[g + 0], ">"[0], false); }
    var x := s[a..c];
    assert MatchesAt(s, close, c, ci) && forall j :: a <= j < c ==> !MatchesAt(s, close, j, ci) by {
      FindSpec(s, close, a, ci);
    }
    assert !Contains(x, close, ci) by {
      ContainsIff(x, close, ci);
      forall j | MatchesAt(x, close, j, ci) ensures false {
        MatchesInSlice(s, a, c, close, j, ci);
      }
    }
  }

  /**
   * The opening tag of a match ends at the first `>` after `<tag`, and the
   * group ends at the first closing tag after it. The pattern matches at `i`
   * exactly when `<tag` stands there and some `>` after it is followed by a
   * closing tag.
   */
  lemma ElementAtLeftmost(s: string, tag: string, ci: bool, i: nat)
    ensures var r := ElementAt(s, tag, ci, i);
      r.Some? ==> forall k :: i + 1 + |tag| <= k < r.value.0 - 1 ==> s[k] != '>'
    ensures var r := ElementAt(s, tag, ci, i);
      r.Some? ==> forall j :: r.value.0 <= j < r.value.1 ==> !MatchesAt(s, "</" + tag + ">", j, ci)
    ensures ElementAt(s, tag, ci, i).Some? <==>
      MatchesAt(s, "<" + tag, i, ci) && exists g, c :: i + 1 + |tag| <= g < c && MatchesAt(s, "</" + tag + ">", c, ci) && s[g] == '>'
  {
    OpenTagEnd(s, tag, ci, i);
    GroupEnd(s, tag, ci, i);
    ElementAtIff(s, tag, ci, i);
  }

  /** The opening tag of a match ends at the first `>` after `<tag`. */
  lemma OpenTagEnd(s: string, tag: string, ci: bool, i: nat)
    ensures var r := ElementAt(s, tag, ci, i);
      r.Some? ==> forall k :: i + 1 + |tag| <= k < r.value.0 - 1 ==> s[k] != '>'
  {
    if ElementAt(s, tag, ci, i).Some? {
      var from := i + 1 + |tag|;
      var g := Find(s, ">", from, false).value;
      assert forall k :: from <= k < g ==> !MatchesAt(s, ">", k, false) by {
        FindSpec(s, ">", from, false);
      }
      forall k | from <= k < g ensures s[k] != '>' {
        if s[k] == '>' {
          assert MatchesAt(s, ">", k, false);
        }
      }
    }
  }

  /** The group of a match ends at the first closing tag after the opening tag. */
  lemma GroupEnd(s: string, tag: string, ci: bool, i: nat)
    ensures var r := ElementAt(s, tag, ci, i);
      r.Some? ==> forall j :: r.value.0 <= j < r.value.1 ==> !MatchesAt(s, "</" + tag + ">", j, ci)
  {
    if ElementAt(s, tag, ci, i).Some? {
      var g := Find(s, ">", i + 1 + |tag|, false).value;
      FindSpec(s, "</" + tag + ">", g + 1, ci);
    }
  }

  /** The pattern matches at `i` exactly when `<tag` stands there and some `>` after it is followed by a closing tag. */
  lemma ElementAtIff(s: string, tag: string, ci: bool, i: nat)
    ensures ElementAt(s, tag, ci, i).Some? <==>
      MatchesAt(s, "<" + tag, i, ci) && exists g, c :: i + 1 + |tag| <= g < c && MatchesAt(s, "</" + tag + ">", c, ci) && s[g] == '>'
  {
    var close := "</" + tag + ">";
    if MatchesAt(s, "<" + tag, i, ci) && exists g, c :: i + 1 + |tag| <= g < c && MatchesAt(s, close, c, ci) && s[g] == '>' {
      var g, c :| i + 1 + |tag| <= g < c && MatchesAt(s, close, c, ci) && s[g] == '>';
      ElementAtFromWitness(s, tag, ci, i, g, c);
    }
    if ElementAt(s, tag, ci, i).Some? {
      var g := Find(s, ">", i + 1 + |tag|, false).value;
      var c := ElementAt(s, tag, ci, i).value.1;
      ElementAtMatches(s, tag, ci, i, g + 1, c);
    }
  }

  /** A `>` after `<tag` followed by a closing tag makes the pattern match. */
  lemma ElementAtFromWitness(s: string, tag: string, ci: bool, i: nat, g0: nat, c0: nat)
    requires MatchesAt(s, "<" + tag, i, ci) && i + 1 + |tag| <= g0 < c0
    requires MatchesAt(s, "</" + tag + ">", c0, ci) && s[g0] == '>'
    ensures ElementAt(s, tag, ci, i).Some?
  {
    var from := i + 1 + |tag|;
    assert MatchesAt(s, ">", g0, false) by { assert CharMatches(s[g0 + 0], ">"[0], false); }
    FindSpec(s, ">", from, false);
    var g := Find(s, ">", from, false).value;
    FindSpec(s, "</" + tag + ">", g + 1, ci);
  }

  /**
   * `re.findall(r'<tag[^>]*>(.*?)</tag>', s[from..], re.DOTALL)` (with
   * IGNORECASE when `ci`): the groups of the successive non-overlapping
   * matches, searched from left to right. No group contains the closing tag.
   */
  function FindElements(s: string, tag: string, ci: bool, from: nat): (r: seq<string>)
    decreases |s| - from
  {
    if from >= |s| then []
    else
      var m := ElementAt(s, tag, ci, from);
      if m.None? then FindElements(s, tag, ci, from + 1)
      else [s[m.value.0..m.value.1]] + FindElements(s, tag, ci, m.value.1 + |tag| + 3)
  }

  /** None of `groups` contains `close`. */
  predicate NoneContains(groups: seq<string>, close: string, ci: bool) {
    forall k :: 0 <= k < |groups| ==> !Contains(groups[k], close, ci)
  }

  /** No group found contains the closing tag. */
  lemma {:induction false} FindElementsNoClose(s: string, tag: string, ci: bool, from: nat)
    ensures NoneContains(FindElements(s, tag, ci, from), "</" + tag + ">", ci)
    decreases |s| - from
  {
    if from < |s| {
      var m := ElementAt(s, tag, ci, from);
      if m.None? {
        FindElementsSkip(s, tag, ci, from, from + 1);
        FindElementsNoClose(s, tag, ci, from + 1);
      } else {
        FindElementsNoClose(s, tag, ci, m.value.1 + |tag| + 3);
        FindElementsNoCloseFound(s, tag, ci, from, m.value.0, m.value.1);
      }
    }
  }

  /** A found group without the closing tag, followed by such groups. */
  lemma FindElementsNoCloseFound(s: string, tag: string, ci: bool, from: nat, a: nat, c: nat)
    requires from < |s| && ElementAt(s, tag, ci, from) == Some((a, c))
    requires NoneContains(FindElements(s, tag, ci, c + |tag| + 3), "</" + tag + ">", ci)
    ensures NoneContains(FindElements(s, tag, ci, from), "</" + tag + ">", ci)
  {
    var close, x, n := "</" + tag + ">", s[a..c], c + |tag| + 3;
    var rest := FindElements(s, tag, ci, n);
    assert FindElements(s, tag, ci, from) == [x] + rest by {
      FindElementsFound(s, tag, ci, from, a, c, n, x);
    }
    assert !Contains(x, close, ci) by {
      ElementAtMatches(s, tag, ci, from, a, c);
    }
    NoneContainsCons(x, rest, close, ci);
  }

  /** Prepending a group without `close` keeps the property. */
  lemma NoneContainsCons(x: string, rest: seq<string>, close: string, ci: bool)
    requires !Contains(x, close, ci) && NoneContains(rest, close, ci)
    ensures NoneContains([x] + rest, close, ci)
  {
    forall k | 0 <= k < |[x] + rest| ensures !Contains(([x] + rest)[k], close, ci) {
      if k > 0 {
        assert ([x] + rest)[k] == rest[k - 1];
      }
    }
  }

  /** There are no matches exactly when the pattern matches nowhere from `from` on. */
  lemma {:induction false} FindElementsNone(s: string, tag: string, ci: bool, from: nat)
    ensures FindElements(s, tag, ci, from) == [] <==> forall p :: from <= p < |s| ==> ElementAt(s, tag, ci, p).None?
    decreases |s| - from
  {
    if from < |s| && ElementAt(s, tag, ci, from).None? {
      FindElementsNone(s, tag, ci, from + 1);
      if FindElements(s, tag, ci, from + 1) == [] {
        forall q | from <= q < |s| ensures ElementAt(s, tag, ci, q).None? {
          if q > from {
            assert from + 1 <= q < |s|;
          }
        }
      }
    }
  }

  /** `p` is the leftmost position at or after `from` where the pattern matches. */
  predicate LeftmostMatch(s: string, tag: string, ci: bool, from: nat, p: nat)
  {
    from <= p < |s| && ElementAt(s, tag, ci, p).Some?
    && forall q :: from <= q < p ==> ElementAt(s, tag, ci, q).None?
  }

  /**
   * The matches are the successive leftmost ones: when `p` is the leftmost
   * match from `from` on, the first group is that of `p`, and the rest are
   * the matches found from the end of that one.
   */
  lemma {:induction false} FindElementsLeftmost(s: string, tag: string, ci: bool, from: nat, p: nat)
    requires LeftmostMatch(s, tag, ci, from, p)
    ensures FindElements(s, tag, ci, from)
      == [s[ElementAt(s, tag, ci, p).value.0..ElementAt(s, tag, ci, p).value.1]]
         + FindElements(s, tag, ci, ElementAt(s, tag, ci, p).value.1 + |tag| + 3)
    decreases p - from
  {
    FindElementsSkip(s, tag, ci, from, p);
    var m := ElementAt(s, tag, ci, p).value;
    FindElementsFound(s, tag, ci, p, m.0, m.1, m.1 + |tag| + 3, s[m.0..m.1]);
  }

  /** Positions where the pattern does not match are skipped. */
  lemma {:induction false} FindElementsSkip(s: string, tag: string, ci: bool, from: nat, p: nat)
    requires from <= p <= |s|
    requires forall q :: from <= q < p ==> ElementAt(s, tag, ci, q).None?
    ensures FindElements(s, tag, ci, from) == FindElements(s, tag, ci, p)
    decreases p - from
  {
    if from < p {
      assert ElementAt(s, tag, ci, from).None?;
      assert FindElements(s, tag, ci, from) == FindElements(s, tag, ci, from + 1);
      FindElementsSkip(s, tag, ci, from + 1, p);
    }
  }

  /**
   * Where the pattern matches, its group `x` is the first one found, and the
   * search goes on at `n`, just past the closing tag.
   */
  lemma FindElementsFound(s: string, tag: string, ci: bool, from: nat, a: nat, c: nat, n: nat, x: string)
    requires from < |s| && ElementAt(s, tag, ci, from) == Some((a, c))
    requires n == c + |tag| + 3 && x == s[a..c]
    ensures FindElements(s, tag, ci, from) == [x] + FindElements(s, tag, ci, n)
  {
    var r := FindElements(s, tag, ci, from);
    assert |r| > 0 && r[0] == x;
    assert r[1..] == FindElements(s, tag, ci, n);
    assert r == [r[0]] + r[1..];
  }

  /** An element: the opening tag, the text, the closing tag. */
  function Element(tag: string, x: string): (e: string)
    ensures |e| == 2 * |tag| + 5 + |x|
  {
    "<" + tag + ">" + x + "</" + tag + ">"
  }

  /** Elements one after the other. */
  function Elements(tag: string, xs: seq<string>): string
  {
    if xs == [] then "" else Element(tag, xs[0]) + Elements(tag, xs[1..])
  }

  /** `s` has no `<`. */
  predicate NoOpen(x: string) {
    forall k :: 0 <= k < |x| ==> x[k] != '<'
  }

  /** At an element whose text has no `<`, the pattern matches with that text as its group. */
  lemma ElementAtElement(s: string, tag: string, ci: bool, p: nat, x: string)
    requires p + |Element(tag, x)| <= |s| && s[p..p + |Element(tag, x)|] == Element(tag, x)
    requires NoOpen(x)
    ensures ElementAt(s, tag, ci, p) == Some((p + |tag| + 2, p + |tag| + 2 + |x|))
  {
    OpenTagAt(s, tag, ci, p, x);
    CloseTagAfter(s, tag, ci, p, x);
    ElementAtFound(s, tag, ci, p, p + |tag| + 1, p + |tag| + 2 + |x|);
  }

  /** An element's opening `<tag` stands at its start, and its first `>` right after the name. */
  lemma OpenTagAt(s: string, tag: string, ci: bool, p: nat, x: string)
    requires p + |Element(tag, x)| <= |s| && s[p..p + |Element(tag, x)|] == Element(tag, x)
    ensures MatchesAt(s, "<" + tag, p, ci)
    ensures Find(s, ">", p + 1 + |tag|, false) == Some(p + |tag| + 1)
  {
    var e := Element(tag, x);
    var open := "<" + tag;
    assert e == open + (">" + x + "</" + tag + ">");
    forall k | 0 <= k < |open| ensures CharMatches(s[p + k], open[k], ci) {
      assert s[p..p + |e|][k] == s[p + k];
      assert e[k] == open[k];
    }
    var g := p + |tag| + 1;
    assert s[p..p + |e|][|tag| + 1] == s[g];
    assert e[|tag| + 1] == '>';
    assert MatchesAt(s, ">", g, false);
    FindExactly(s, ">", g, g, false);
  }

  /** After the `>` of an element whose text has no `<`, the first closing tag is the element's own. */
  lemma CloseTagAfter(s: string, tag: string, ci: bool, p: nat, x: string)
    requires p + |Element(tag, x)| <= |s| && s[p..p + |Element(tag, x)|] == Element(tag, x)
    requires NoOpen(x)
    ensures Find(s, "</" + tag + ">", p + |tag| + 2, ci) == Some(p + |tag| + 2 + |x|)
  {
    var e := Element(tag, x);
    var close := "</" + tag + ">";
    var a := p + |tag| + 2;
    var c := a + |x|;
    assert e == "<" + tag + ">" + x + close;
    forall k | 0 <= k < |close| ensures CharMatches(s[c + k], close[k], ci) {
      assert s[p..p + |e|][|tag| + 2 + |x| + k] == s[c + k];
      assert e[|tag| + 2 + |x| + k] == close[k];
    }
    forall j | a <= j < c ensures !MatchesAt(s, close, j, ci) {
      assert s[p..p + |e|][j - p] == s[j];
      assert e[j - p] == x[j - a];
      assert !CharMatches(s[j + 0], close[0], ci);
    }
    FindExactly(s, close, a, c, ci);
  }

  /** The match at `p` is given by the two searches it makes. */
  lemma ElementAtFound(s: string, tag: string, ci: bool, p: nat, g: nat, c: nat)
    requires MatchesAt(s, "<" + tag, p, ci)
    requires Find(s, ">", p + 1 + |tag|, false) == Some(g) && Find(s, "</" + tag + ">", g + 1, ci) == Some(c)
    ensures ElementAt(s, tag, ci, p) == Some((g + 1, c))
  {
  }

  /** Scanning a run of elements whose texts have no `<` finds exactly those texts, in order. */
  lemma {:induction false} FindElementsOfElements(s: string, tag: string, ci: bool, p: nat, xs: seq<string>)
    requires p + |Elements(tag, xs)| == |s| && s[p..] == Elements(tag, xs)
    requires forall k :: 0 <= k < |xs| ==> NoOpen(xs[k])
    ensures FindElements(s, tag, ci, p) == xs
    decreases |xs|
  {
    if xs != [] {
      var a := p + |tag| + 2;
      var c := a + |xs[0]|;
      var n := c + |tag| + 3;
      FirstElement(s, tag, ci, p, xs);
      FindElementsFound(s, tag, ci, p, a, c, n, xs[0]);
      FindElementsOfElements(s, tag, ci, n, xs[1..]);
      assert [xs[0]] + xs[1..] == xs;
    }
  }

  /** The groups found in a run of elements are the texts of the run. */
  lemma ElementsFound(tag: string, ci: bool, xs: seq<string>)
    requires forall k :: 0 <= k < |xs| ==> NoOpen(xs[k])
    ensures FindElements(Elements(tag, xs), tag, ci, 0) == xs
  {
    var s := Elements(tag, xs);
    assert s[0..] == s;
    FindElementsOfElements(s, tag, ci, 0, xs);
  }

  /**
   * The first element of a run is matched with its text as group, and the
   * rest of the run follows its closing tag.
   */
  lemma FirstElement(s: string, tag: string, ci: bool, p: nat, xs: seq<string>)
    requires xs != [] && p + |Elements(tag, xs)| == |s| && s[p..] == Elements(tag, xs)
    requires NoOpen(xs[0])
    ensures var c := p + |tag| + 2 + |xs[0]|;
      && p < |s| && ElementAt(s, tag, ci, p) == Some((p + |tag| + 2, c))
      && xs[0] == s[p + |tag| + 2..c]
      && c + |tag| + 3 + |Elements(tag, xs[1..])| == |s| && s[c + |tag| + 3..] == Elements(tag, xs[1..])
  {
    var e := Element(tag, xs[0]);
    var rest := Elements(tag, xs[1..]);
    assert s[p..] == e + rest;
    assert s[p..p + |e|] == e;
    ElementAtElement(s, tag, ci, p, xs[0]);
    var a := p + |tag| + 2;
    var c := a + |xs[0]|;
    assert s[a..c] == e[|tag| + 2..|tag| + 2 + |xs[0]|] == xs[0];
    assert c + |tag| + 3 == p + |e|;
    assert s[c + |tag| + 3..] == rest;
  }
}

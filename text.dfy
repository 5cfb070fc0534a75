/**
 * The string operations `convert_file` relies on: Rust's `char::is_whitespace`,
 * `str::trim_start`, `str::trim`, `str::split_once`, `str::find` and `str::replace`,
 * over strings as sequences of Unicode scalar values.
 */
module Text {
  import opened Outcomes

  /** The Unicode White_Space property, which is what Rust's `char::is_whitespace` tests. */
  predicate IsWhitespace(c: char) {
    ('\U{9}' <= c <= '\U{D}') || c == ' ' || c == '\U{85}' || c == '\U{A0}' || c == '\U{1680}'
    || ('\U{2000}' <= c <= '\U{200A}') || c == '\U{2028}' || c == '\U{2029}' || c == '\U{202F}'
    || c == '\U{205F}' || c == '\U{3000}'
  }

  /** `s` neither starts nor ends with whitespace. */
  predicate NoEdgeWhitespace(s: string) {
    s == [] || (!IsWhitespace(s[0]) && !IsWhitespace(s[|s| - 1]))
  }

  /** `r` sits at offset `k` of `s`, and everything of `s` around it is whitespace. */
  predicate StripsTo(s: string, k: nat, r: string) {
    k + |r| <= |s| && r == s[k..k + |r|]
    && (forall i :: 0 <= i < k ==> IsWhitespace(s[i]))
    && (forall i :: k + |r| <= i < |s| ==> IsWhitespace(s[i]))
  }

  /** `str::trim_start`: drop the leading whitespace and keep the rest verbatim. */
  function TrimStart(s: string): (r: string)
    ensures |r| <= |s| && r == s[|s| - |r|..]
    ensures forall i :: 0 <= i < |s| - |r| ==> IsWhitespace(s[i])
    ensures r == [] || !IsWhitespace(r[0])
  {
    if s != [] && IsWhitespace(s[0]) then TrimStart(s[1..]) else s
  }

  /** Trimming the start removes exactly a whitespace prefix that is followed by a non-whitespace character or nothing. */
  lemma {:induction false} TrimStartDropsLeading(blank: string, rest: string)
    requires forall k :: 0 <= k < |blank| ==> IsWhitespace(blank[k])
    requires rest == [] || !IsWhitespace(rest[0])
    ensures TrimStart(blank + rest) == rest
  {
    if blank != [] {
      assert (blank + rest)[1..] == blank[1..] + rest;
      TrimStartDropsLeading(blank[1..], rest);
    }
  }

  /** Drop the trailing whitespace and keep the rest verbatim. */
  function TrimEnd(s: string): (r: string)
    ensures |r| <= |s| && r == s[..|r|]
    ensures forall i :: |r| <= i < |s| ==> IsWhitespace(s[i])
    ensures r == [] || !IsWhitespace(r[|r| - 1])
  {
    if s != [] && IsWhitespace(s[|s| - 1]) then TrimEnd(s[..|s| - 1]) else s
  }

  /** Trimming the end removes exactly a whitespace suffix that follows a non-whitespace character or nothing. */
  lemma {:induction false} TrimEndDropsTrailing(text: string, blank: string)
    requires forall k :: 0 <= k < |blank| ==> IsWhitespace(blank[k])
    requires text == [] || !IsWhitespace(text[|text| - 1])
    ensures TrimEnd(text + blank) == text
  {
    if blank != [] {
      var last := |blank| - 1;
      assert (text + blank)[..|text + blank| - 1] == text + blank[..last];
      TrimEndDropsTrailing(text, blank[..last]);
    }
  }

  /** `str::trim`: drop whitespace at both ends. */
  function Trim(s: string): (r: string)
    ensures StripsTo(s, |s| - |TrimStart(s)|, r)
    ensures NoEdgeWhitespace(r)
  {
    TrimFrames(s);
    TrimEnd(TrimStart(s))
  }

  /** What trimming both ends leaves is a slice of the input with only whitespace around it. */
  lemma TrimFrames(s: string)
    ensures StripsTo(s, |s| - |TrimStart(s)|, TrimEnd(TrimStart(s)))
    ensures NoEdgeWhitespace(TrimEnd(TrimStart(s)))
  {
    var t := TrimStart(s);
    SuffixFrame(s, |s| - |t|, t, TrimEnd(t));
  }

  /** A whitespace-framed slice of a suffix `t` of `s` is a whitespace-framed slice of `s`. */
  lemma SuffixFrame(s: string, k: nat, t: string, u: string)
    requires k <= |s| && t == s[k..] && |u| <= |t| && u == t[..|u|]
    requires forall i :: 0 <= i < k ==> IsWhitespace(s[i])
    requires forall i :: |u| <= i < |t| ==> IsWhitespace(t[i])
    ensures StripsTo(s, k, u)
  {
    assert u == s[k..k + |u|];
    forall i | k + |u| <= i < |s|
      ensures IsWhitespace(s[i])
    {
      assert s[i] == t[i - k];
    }
  }

  /** Trimming introduces no character that was not in the input. */
  lemma TrimKeepsCharacters(s: string, c: char)
    ensures c in Trim(s) ==> c in s
  {
    var r := Trim(s);
    if c in r {
      var k := |s| - |TrimStart(s)|;
      var i :| 0 <= i < |r| && r[i] == c;
      assert r[i] == s[k + i];
    }
  }

  /** Whatever whitespace-only frame is put around a text without edge whitespace, trimming recovers the text. */
  lemma TrimIsUnique(s: string, k: nat, r: string)
    requires StripsTo(s, k, r) && NoEdgeWhitespace(r)
    ensures Trim(s) == r
  {
    var tail := s[k + |r|..];
    assert s == s[..k] + (r + tail);
    if r == [] {
      assert s + [] == s;
      TrimStartDropsLeading(s, []);
    } else {
      TrimStartDropsLeading(s[..k], r + tail);
      TrimEndDropsTrailing(r, tail);
    }
  }

  /** Trimming twice trims no more than trimming once. */
  lemma TrimIdempotent(s: string)
    ensures Trim(Trim(s)) == Trim(s)
  {
    TrimIsUnique(Trim(s), 0, Trim(s));
  }

  /** `str::split_once(c)`: the text before the first `c` and the text after it. */
  function SplitOnce(s: string, c: char): (r: Option<(string, string)>)
    ensures r.None? <==> c !in s
    ensures r.Some? ==> s == r.value.0 + [c] + r.value.1 && c !in r.value.0
  {
    if s == [] then None
    else if s[0] == c then Some(([], s[1..]))
    else match SplitOnce(s[1..], c)
      case None => None
      case Some((before, after)) =>
        assert s == [s[0]] + s[1..];
        Some(([s[0]] + before, after))
  }

  /** `pat` occurs in `s` starting at index `i`. */
  predicate Occurs(s: string, pat: string, i: nat) {
    i + |pat| <= |s| && s[i..i + |pat|] == pat
  }

  predicate Contains(s: string, pat: string) {
    exists i: nat | i <= |s| :: Occurs(s, pat, i)
  }

  lemma OccursShift(s: string, pat: string, i: nat)
    requires s != []
    ensures Occurs(s[1..], pat, i) <==> Occurs(s, pat, i + 1)
  {
    if i + |pat| <= |s[1..]| {
      assert s[1..][i..i + |pat|] == s[i + 1..i + 1 + |pat|];
    }
  }

  /** `str::find`: the index of the leftmost occurrence of `pat`. */
  function FindFirst(s: string, pat: string): Option<nat>
    requires pat != []
  {
    if |s| < |pat| then None
    else if s[..|pat|] == pat then Some(0)
    else match FindFirst(s[1..], pat)
      case None => None
      case Some(j) => Some(j + 1)
  }

  /** FindFirst finds an occurrence whenever there is one, and no occurrence starts before the one it finds. */
  lemma {:induction false} FindFirstIsLeftmost(s: string, pat: string)
    requires pat != []
    ensures FindFirst(s, pat).None? <==> !Contains(s, pat)
    ensures FindFirst(s, pat).Some? ==> Occurs(s, pat, FindFirst(s, pat).value)
    ensures FindFirst(s, pat).Some? ==> forall i: nat :: i < FindFirst(s, pat).value ==> !Occurs(s, pat, i)
  {
    if |s| < |pat| {
    } else if s[..|pat|] == pat {
      assert Occurs(s, pat, 0);
    } else {
      FindFirstIsLeftmost(s[1..], pat);
      var r := FindFirst(s[1..], pat);
      assert !Occurs(s, pat, 0);
      forall i: nat ensures Occurs(s[1..], pat, i) <==> Occurs(s, pat, i + 1) {
        OccursShift(s, pat, i);
      }
      forall i: nat | i > 0 ensures Occurs(s, pat, i) == Occurs(s[1..], pat, i - 1) {
        OccursShift(s, pat, i - 1);
      }
      if r.Some? {
        assert Occurs(s, pat, r.value + 1);
      } else {
        assert forall i: nat :: !Occurs(s, pat, i);
      }
    }
  }

  /**
   * `str::replace(pat, rep)`: scan left to right, and each time `pat` starts at the
   * current position emit `rep` and jump past the match; otherwise copy one character.
   */
  function ReplaceAll(s: string, pat: string, rep: string): string
    requires pat != []
    decreases |s|
  {
    if |s| < |pat| then s
    else if s[..|pat|] == pat then rep + ReplaceAll(s[|pat|..], pat, rep)
    else [s[0]] + ReplaceAll(s[1..], pat, rep)
  }

  /** Text in which the pattern does not occur comes through replacement unchanged. */
  lemma {:induction false} ReplaceWithoutMatchIsIdentity(s: string, pat: string, rep: string)
    requires pat != [] && !Contains(s, pat)
    ensures ReplaceAll(s, pat, rep) == s
    decreases |s|
  {
    if |s| >= |pat| {
      assert !Occurs(s, pat, 0);
      assert !Contains(s[1..], pat) by {
        if Contains(s[1..], pat) {
          var i: nat :| i <= |s[1..]| && Occurs(s[1..], pat, i);
          OccursShift(s, pat, i);
        }
      }
      ReplaceWithoutMatchIsIdentity(s[1..], pat, rep);
    }
  }

  /** Where no match starts, replacement copies the first character and carries on. */
  lemma ReplaceCopiesUnmatched(s: string, pat: string, rep: string)
    requires pat != [] && s != [] && !Occurs(s, pat, 0)
    ensures ReplaceAll(s, pat, rep) == [s[0]] + ReplaceAll(s[1..], pat, rep)
  {
  }

  /**
   * Replacement copies the text before the leftmost match, emits `rep`, and carries on
   * with `after`, the text that follows the match.
   */
  lemma {:induction false} ReplaceAtFirstMatch(s: string, pat: string, rep: string, j: nat, after: string)
    requires pat != [] && FindFirst(s, pat) == Some(j)
    requires j + |pat| <= |s| && after == s[j + |pat|..]
    ensures ReplaceAll(s, pat, rep) == s[..j] + rep + ReplaceAll(after, pat, rep)
  {
    if s[..|pat|] != pat {
      var t := s[1..];
      ReplaceCopiesUnmatched(s, pat, rep);
      SliceAfterHead(s, j, |pat|);
      ReplaceAtFirstMatch(t, pat, rep, j - 1, after);
      PrependStep(s, j, rep, ReplaceAll(s, pat, rep), ReplaceAll(t, pat, rep), ReplaceAll(after, pat, rep));
    }
  }

  /** Sequence bookkeeping for one step of ReplaceAtFirstMatch. */
  lemma SliceAfterHead(s: string, j: nat, m: nat)
    requires 0 < j && j + m <= |s|
    ensures s[1..][j - 1 + m..] == s[j + m..]
  {
  }

  lemma PrependStep(s: string, j: nat, rep: string, whole: string, rest: string, tail: string)
    requires 0 < j <= |s|
    requires whole == [s[0]] + rest && rest == s[1..][..j - 1] + rep + tail
    ensures whole == s[..j] + rep + tail
  {
    assert [s[0]] + s[1..][..j - 1] == s[..j];
  }

  /** A text that lacks the pattern's first character cannot contain the pattern. */
  lemma NoMatchWithoutFirstChar(s: string, pat: string)
    requires pat != [] && pat[0] !in s
    ensures !Contains(s, pat)
  {
    forall i: nat | i <= |s| ensures !Occurs(s, pat, i) {
      if i + |pat| <= |s| {
        assert s[i..i + |pat|][0] == s[i];
      }
    }
  }

  /**
   * The pattern placed after a text without a match is the leftmost match, provided no
   * match can start inside that text and run into it: either the text lacks the pattern's
   * first character, or that character does not recur later in the pattern.
   */
  lemma NoMatchBeforePlaced(before: string, pat: string, after: string, i: nat)
    requires pat != [] && !Contains(before, pat)
    requires pat[0] !in before || pat[0] !in pat[1..]
    requires i < |before|
    ensures !Occurs(before + pat + after, pat, i)
  {
    var s := before + pat + after;
    var m := |pat|;
    var j := |before|;
    assert s[i] == before[i];
    if i + m <= j {
      assert s[i..i + m] == before[i..i + m];
      assert !Occurs(before, pat, i);
    } else if i + m <= |s| {
      var k := j - i;
      assert s[i..i + m][0] == s[i];
      assert s[i..i + m][k] == s[j] == pat[0];
      assert pat[1..][k - 1] == pat[k];
    }
  }

  /** An occurrence with none before it is the one the leftmost search finds. */
  lemma FirstOccurrenceIsFound(s: string, pat: string, j: nat)
    requires pat != [] && Occurs(s, pat, j)
    requires forall i: nat :: i < j ==> !Occurs(s, pat, i)
    ensures FindFirst(s, pat) == Some(j)
  {
    FindFirstIsLeftmost(s, pat);
    assert Contains(s, pat);
  }

  /**
   * A single match of the pattern, between texts that hold none and which no match can
   * run across, is replaced and nothing else changes.
   */
  lemma ReplaceSoleMatch(before: string, pat: string, rep: string, after: string)
    requires pat != [] && !Contains(before, pat) && !Contains(after, pat)
    requires pat[0] !in before || pat[0] !in pat[1..]
    ensures ReplaceAll(before + pat + after, pat, rep) == before + rep + after
  {
    var s := before + pat + after;
    var j := |before|;
    assert s[j..j + |pat|] == pat;
    forall i: nat | i < j
      ensures !Occurs(s, pat, i)
    {
      NoMatchBeforePlaced(before, pat, after, i);
    }
    FirstOccurrenceIsFound(s, pat, j);
    assert s[..j] == before && s[j + |pat|..] == after;
    ReplaceAtFirstMatch(s, pat, rep, j, after);
    ReplaceWithoutMatchIsIdentity(after, pat, rep);
  }

  /** No character of `rep` can take part in a match of `pat`. */
  predicate Disjoint(rep: string, pat: string) {
    forall k :: 0 <= k < |rep| ==> rep[k] !in pat
  }

  /** A match in `a + rep + b` lies wholly in `a`, wholly in `b`, or overlaps `rep`; the last is impossible. */
  lemma NoMatchAroundReplacement(a: string, rep: string, b: string, pat: string, i: nat)
    requires pat != [] && rep != [] && Disjoint(rep, pat)
    requires i + |pat| <= |a| ==> !Occurs(a, pat, i)
    requires !Contains(b, pat)
    ensures !Occurs(a + rep + b, pat, i)
  {
    var r := a + rep + b;
    var m := |pat|;
    if i + m <= |r| {
      if i + m <= |a| {
        assert r[i..i + m] == a[i..i + m];
      } else if i >= |a| + |rep| {
        var i' := i - |a| - |rep|;
        assert r[i..i + m] == b[i'..i' + m];
        assert !Occurs(b, pat, i');
      } else {
        var p := if i < |a| then |a| else i;
        assert r[p] == rep[p - |a|];
        assert r[p] !in pat;
        assert r[i..i + m][p - i] == r[p];
      }
    }
  }

  /** Text before the leftmost match, then the replacement, then a match-free rest: no match anywhere. */
  lemma NoMatchAfterFirstReplacement(s: string, pat: string, rep: string, j: nat, after: string)
    requires pat != [] && rep != [] && Disjoint(rep, pat)
    requires j <= |s| && forall i: nat :: i < j ==> !Occurs(s, pat, i)
    requires !Contains(after, pat)
    ensures !Contains(s[..j] + rep + after, pat)
  {
    var before := s[..j];
    var m := |pat|;
    forall i: nat ensures !Occurs(before + rep + after, pat, i) {
      if i + m <= j {
        assert !Occurs(s, pat, i);
        assert before[i..i + m] == s[i..i + m];
      }
      NoMatchAroundReplacement(before, rep, after, pat, i);
    }
  }

  /**
   * When the replacement is non-empty and shares no character with the pattern, no
   * match of the pattern survives, not even one straddling a replacement boundary.
   */
  lemma {:induction false} ReplaceLeavesNoMatch(s: string, pat: string, rep: string)
    requires pat != [] && rep != [] && Disjoint(rep, pat)
    ensures !Contains(ReplaceAll(s, pat, rep), pat)
    decreases |s|
  {
    FindFirstIsLeftmost(s, pat);
    match FindFirst(s, pat)
    case None =>
      ReplaceWithoutMatchIsIdentity(s, pat, rep);
    case Some(j) =>
      var rest := s[j + |pat|..];
      ReplaceAtFirstMatch(s, pat, rep, j, rest);
      ReplaceLeavesNoMatch(rest, pat, rep);
      NoMatchAfterFirstReplacement(s, pat, rep, j, ReplaceAll(rest, pat, rep));
  }

  /** Under the same condition, replacement changes the text exactly when the pattern occurs in it. */
  lemma ReplaceIsIdentityIff(s: string, pat: string, rep: string)
    requires pat != [] && rep != [] && Disjoint(rep, pat)
    ensures ReplaceAll(s, pat, rep) == s <==> !Contains(s, pat)
  {
    ReplaceLeavesNoMatch(s, pat, rep);
    if !Contains(s, pat) {
      ReplaceWithoutMatchIsIdentity(s, pat, rep);
    }
  }

  /** The position of the last `c` in `s`, if any. */
  function LastIndexOf(s: string, c: char): (r: Option<nat>)
    ensures r.None? <==> c !in s
    ensures r.Some? ==> r.value < |s| && s[r.value] == c && c !in s[r.value + 1..]
  {
    if s == [] then None
    else if s[|s| - 1] == c then Some(|s| - 1)
    else
      assert s == s[..|s| - 1] + [s[|s| - 1]];
      LastIndexOf(s[..|s| - 1], c)
  }
}

/**
 * The single-expression cleaning steps: clean_text, remove_text_in_square_brackets
 * and remove_multiple_links.
 */
module Cleaning {
  import opened Wrappers
  import opened Strings
  import Scan

  /**
   * The first rule of clean_text, `(?:(https?://)\S+(?=\s|$))(\1\S+)` -> `\1`,
   * matches s[i..k] with group 1 = s[i..g] and the lookahead at j. The predicate
   * lists what a match needs.
   */
  ghost predicate DoubledUrlMatch(s: string, i: nat, g: nat, j: nat, k: nat) {
    && i < g < j < k <= |s|
    && (s[i..g] == "http://" || s[i..g] == "https://")
    && (forall q :: g <= q < j ==> !IsSpace(s[q]))
    && (j == |s| || IsSpace(s[j]))
    && j + (g - i) <= k
    && s[j..j + (g - i)] == s[i..g]
  }

  /**
   * That rule can never fire: the lookahead wants whitespace or the end of the text
   * exactly where the back-reference, which starts with 'h', has to begin.
   */
  lemma DoubledUrlNeverMatches(s: string, i: nat, g: nat, j: nat, k: nat)
    ensures !DoubledUrlMatch(s, i, g, j, k)
  {
  }

  /** clean_text: the URL rule changes nothing, then `\s+` -> ' ' and strip. */
  function CleanText(text: string): (r: string)
    ensures r == JoinWith(Words(text), ' ')
    ensures Tidy(r)
    ensures Filter(r, NotSpace) == Filter(text, NotSpace)
  {
    NormalizeSpace(text)
  }

  /** Cleaning twice is cleaning once. */
  lemma CleanTextIdempotent(text: string)
    ensures CleanText(CleanText(text)) == CleanText(text)
  {
    NormalizeSpaceIdempotent(text);
  }

  /** `\[[^\]]*\]` at the start of t: a '[' and everything up to the first ']' after it. */
  function BracketMatcher(t: string): (n: nat)
    ensures n > 0 ==> 2 <= n <= |t| && t[0] == '[' && t[n - 1] == ']' && ']' !in t[1..n - 1]
    ensures n == 0 ==> t == [] || t[0] != '[' || ']' !in t[1..]
  {
    if t != [] && t[0] == '[' then
      match IndexOf(t[1..], ']')
      case Some(j) => assert t[1..j + 1] == t[1..][..j]; j + 2
      case None => 0
    else 0
  }

  /** No '[' anywhere before a ']'. */
  ghost predicate NoBracketPair(s: string) {
    forall i, j :: 0 <= i < j < |s| && s[i] == '[' ==> s[j] != ']'
  }

  /** After the substitution no '[' is followed, anywhere later, by a ']'. */
  lemma {:induction false} NoPairAfterRemoval(s: string)
    ensures NoBracketPair(Scan.RemoveAll(s, BracketMatcher))
    decreases |s|
  {
    if s != [] {
      var n := BracketMatcher(s);
      if Scan.MatchesAt(BracketMatcher, s) {
        NoPairAfterRemoval(s[n..]);
      } else {
        var tail := Scan.RemoveAll(s[1..], BracketMatcher);
        NoPairAfterRemoval(s[1..]);
        var r := [s[0]] + tail;
        if s[0] == '[' {
          assert ']' !in s[1..];
          if ']' in tail {
            SubseqMembers(tail, s[1..], ']');
          }
        }
        forall i, j | 0 <= i < j < |r| && r[i] == '['
          ensures r[j] != ']'
        {
          assert r[j] == tail[j - 1];
          if i > 0 { assert r[i] == tail[i - 1]; }
        }
      }
    }
  }

  /** Where no '[' precedes a ']' the pattern matches nowhere. */
  lemma NoPairNoMatch(s: string)
    requires NoBracketPair(s)
    ensures Scan.NoMatch(s, BracketMatcher)
  {
    forall i | 0 <= i < |s|
      ensures !Scan.MatchesAt(BracketMatcher, s[i..])
    {
      var n := BracketMatcher(s[i..]);
    }
  }

  lemma NoPairSlice(s: string, lo: nat, hi: nat)
    requires lo <= hi <= |s| && NoBracketPair(s)
    ensures NoBracketPair(s[lo..hi])
  {
    var t := s[lo..hi];
    forall i, j | 0 <= i < j < |t| && t[i] == '['
      ensures t[j] != ']'
    {
      assert t[i] == s[lo + i] && t[j] == s[lo + j];
    }
  }

  lemma StripNoPair(s: string)
    requires NoBracketPair(s)
    ensures NoBracketPair(Strip(s))
  {
    var l := TrimLeft(s);
    assert l == s[|s| - |l|..|s|];
    NoPairSlice(s, |s| - |l|, |s|);
    var r := TrimRight(l);
    assert r == l[0..|r|];
    NoPairSlice(l, 0, |r|);
  }

  /** remove_text_in_square_brackets: delete every `[...]` segment, then strip. */
  function RemoveTextInSquareBrackets(text: string): (r: string)
    ensures NoBracketPair(r)
    ensures IsSubseq(r, text)
  {
    var removed := Scan.RemoveAll(text, BracketMatcher);
    NoPairAfterRemoval(text);
    StripNoPair(removed);
    StripSubseq(removed);
    SubseqTrans(Strip(removed), removed, text);
    Strip(removed)
  }

  /** Applying the step to its own output changes nothing. */
  lemma RemoveTextInSquareBracketsIdempotent(text: string)
    ensures RemoveTextInSquareBrackets(RemoveTextInSquareBrackets(text)) == RemoveTextInSquareBrackets(text)
  {
    var once := RemoveTextInSquareBrackets(text);
    NoPairNoMatch(once);
    Scan.RemoveAllUnchanged(once, BracketMatcher);
    StripIdempotent(Scan.RemoveAll(text, BracketMatcher));
  }

  /** Text without any '[' is only stripped. */
  lemma RemoveTextInSquareBracketsPlain(text: string)
    requires '[' !in text
    ensures RemoveTextInSquareBrackets(text) == Strip(text)
  {
    forall i | 0 <= i < |text| ensures !Scan.MatchesAt(BracketMatcher, text[i..]) {
      assert text[i..][0] == text[i];
    }
    Scan.RemoveAllUnchanged(text, BracketMatcher);
  }

  /** Text without any ']' has no segment to remove and is only stripped. */
  lemma RemoveTextInSquareBracketsUnclosed(text: string)
    requires ']' !in text
    ensures RemoveTextInSquareBrackets(text) == Strip(text)
  {
    forall i | 0 <= i < |text| ensures !Scan.MatchesAt(BracketMatcher, text[i..]) {
      assert text[i..][1..] == text[i + 1..];
    }
    Scan.RemoveAllUnchanged(text, BracketMatcher);
  }

  /**
   * The first bracketed segment goes, the text before it survives whole, and the
   * substitution carries on after it.
   */
  lemma RemoveTextInSquareBracketsSegment(a: string, x: string, b: string)
    requires '[' !in a && ']' !in x
    ensures RemoveTextInSquareBrackets(a + "[" + x + "]" + b)
         == Strip(a + Scan.RemoveAll(b, BracketMatcher))
  {
    var seg := "[" + x + "]" + b;
    var s := a + seg;
    assert a + "[" + x + "]" + b == s;
    forall i | 0 <= i < |a| ensures !Scan.MatchesAt(BracketMatcher, s[i..]) {
      assert s[i..][0] == a[i];
    }
    Scan.RemoveAllSkip(a, seg, BracketMatcher);
    SegmentRemoved(x, b);
  }

  /** A '[' with its closing ']' is one match, after which the substitution resumes. */
  lemma SegmentRemoved(x: string, b: string)
    requires ']' !in x
    ensures Scan.RemoveAll("[" + x + "]" + b, BracketMatcher) == Scan.RemoveAll(b, BracketMatcher)
  {
    var seg := "[" + x + "]" + b;
    assert seg[1..] == x + ("]" + b);
    assert seg[1..][|x|] == ']' && seg[1..][..|x|] == x;
    assert IndexOf(seg[1..], ']') == Some(|x|);
    assert BracketMatcher(seg) == |x| + 2;
    assert seg[|x| + 2..] == b;
  }

  /** remove_multiple_links: `links[:1]`, the first link alone if there is one. */
  function RemoveMultipleLinks(links: seq<string>): (r: seq<string>)
    ensures links == [] ==> r == []
    ensures links != [] ==> r == [links[0]]
  {
    if |links| <= 1 then links else links[..1]
  }
}

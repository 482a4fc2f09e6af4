/**
 * `re.sub(pattern, '', text)` and `re.search(pattern, text)` for patterns that
 * never match the empty string. A pattern is reduced to a matcher: the length
 * of the match that begins at the first character of a suffix of the text,
 * 0 when there is none there. Every pattern the cleaning stages use only looks
 * forward from where it starts, so this loses nothing.
 */
module Scan {
  import opened Wrappers
  import opened Strings

  type Matcher = string -> nat

  /** The pattern matches a non-empty prefix of `t`. */
  predicate MatchesAt(m: Matcher, t: string) {
    0 < m(t) <= |t|
  }

  /** The pattern matches nowhere in `s`. */
  ghost predicate NoMatch(s: string, m: Matcher) {
    forall i :: 0 <= i < |s| ==> !MatchesAt(m, s[i..])
  }

  /**
   * re.sub(pattern, '', s): scan left to right; where a match starts, delete
   * it and resume right after it; elsewhere keep the character and move on.
   */
  function RemoveAll(s: string, m: Matcher): (r: string)
    ensures |r| <= |s|
    ensures IsSubseq(r, s)
    decreases |s|
  {
    if s == [] then []
    else if MatchesAt(m, s) then
      var r := RemoveAll(s[m(s)..], m);
      SuffixSubseq(r, s, m(s));
      r
    else
      var tail := RemoveAll(s[1..], m);
      SubseqCons(s[0], tail, s[1..]);
      assert [s[0]] + s[1..] == s;
      [s[0]] + tail
  }

  /** Apply each pattern of the list in turn, each to the output of the previous one; this too only deletes. */
  function RemoveEach(ms: seq<Matcher>, s: string): (r: string)
    ensures |r| <= |s|
    ensures IsSubseq(r, s)
  {
    if ms == [] then
      SubseqRefl(s);
      s
    else
      var mid := RemoveEach(ms[..|ms| - 1], s);
      var r := RemoveAll(mid, ms[|ms| - 1]);
      SubseqTrans(r, mid, s);
      r
  }

  /** re.search(pattern, s): the leftmost position where the pattern matches. */
  function FirstMatch(s: string, m: Matcher): (r: Option<nat>)
    ensures r.Some? ==> r.value < |s| && MatchesAt(m, s[r.value..])
    ensures r.Some? ==> forall j :: 0 <= j < r.value ==> !MatchesAt(m, s[j..])
    ensures r.None? <==> NoMatch(s, m)
  {
    if s == [] then None
    else if MatchesAt(m, s) then Some(0)
    else match FirstMatch(s[1..], m)
      case None =>
        assert forall i :: 1 <= i < |s| ==> s[i..] == s[1..][i - 1..];
        None
      case Some(j) =>
        assert forall i :: 1 <= i <= j + 1 ==> s[i..] == s[1..][i - 1..];
        Some(j + 1)
  }

  lemma NoMatchTail(s: string, m: Matcher)
    requires s != [] && NoMatch(s, m)
    ensures !MatchesAt(m, s) && NoMatch(s[1..], m)
  {
    assert s[0..] == s;
    forall i | 0 <= i < |s[1..]| ensures !MatchesAt(m, s[1..][i..]) {
      assert s[1..][i..] == s[i + 1..];
    }
  }

  /** The text is left unchanged exactly when the pattern matches nowhere in it. */
  lemma {:induction false} RemoveAllUnchanged(s: string, m: Matcher)
    ensures RemoveAll(s, m) == s <==> NoMatch(s, m)
    decreases |s|
  {
    if s != [] {
      RemoveAllUnchanged(s[1..], m);
      if MatchesAt(m, s) {
        assert |RemoveAll(s, m)| <= |s| - m(s) < |s|;
        assert s[0..] == s;
      } else {
        if NoMatch(s, m) {
          NoMatchTail(s, m);
        }
        if RemoveAll(s[1..], m) == s[1..] {
          forall i | 0 <= i < |s| ensures !MatchesAt(m, s[i..]) {
            if i > 0 { assert s[i..] == s[1..][i - 1..]; } else { assert s[0..] == s; }
          }
        } else {
          assert RemoveAll(s, m)[1..] == RemoveAll(s[1..], m);
        }
      }
    }
  }

  /** A prefix at none of whose positions the pattern matches is copied through. */
  lemma {:induction false} RemoveAllSkip(a: string, b: string, m: Matcher)
    requires forall i :: 0 <= i < |a| ==> !MatchesAt(m, (a + b)[i..])
    ensures RemoveAll(a + b, m) == a + RemoveAll(b, m)
    decreases |a|
  {
    if a == [] {
      assert a + b == b;
    } else {
      var s := a + b;
      assert s[0..] == s;
      assert !MatchesAt(m, s);
      assert s[1..] == a[1..] + b;
      assert RemoveAll(s, m) == [a[0]] + RemoveAll(a[1..] + b, m);
      forall i | 0 <= i < |a[1..]| ensures !MatchesAt(m, (a[1..] + b)[i..]) {
        assert (a[1..] + b)[i..] == s[i + 1..];
      }
      RemoveAllSkip(a[1..], b, m);
      Regroup3([a[0]], a[1..], RemoveAll(b, m));
      assert [a[0]] + a[1..] == a;
    }
  }

  /** Every match the pattern can make is free of characters satisfying `p`. */
  ghost predicate MatchesAvoid(m: Matcher, p: char -> bool) {
    forall t :: MatchesAt(m, t) ==> Filter(t[..m(t)], p) == []
  }

  /** A pattern whose matches never contain a `p` character keeps every `p` character, in order. */
  lemma {:induction false} RemoveAllKeeps(s: string, m: Matcher, p: char -> bool)
    requires MatchesAvoid(m, p)
    ensures Filter(RemoveAll(s, m), p) == Filter(s, p)
    decreases |s|
  {
    if s != [] {
      if MatchesAt(m, s) {
        RemoveAllKeeps(s[m(s)..], m, p);
        assert s == s[..m(s)] + s[m(s)..];
        FilterConcat(s[..m(s)], s[m(s)..], p);
      } else {
        RemoveAllKeeps(s[1..], m, p);
        FilterConcat([s[0]], RemoveAll(s[1..], m), p);
        assert s == [s[0]] + s[1..];
        FilterConcat([s[0]], s[1..], p);
      }
    }
  }

  /** A list of patterns none of which can match a `p` character keeps every `p` character. */
  lemma {:induction false} RemoveEachKeeps(ms: seq<Matcher>, s: string, p: char -> bool)
    requires forall i :: 0 <= i < |ms| ==> MatchesAvoid(ms[i], p)
    ensures Filter(RemoveEach(ms, s), p) == Filter(s, p)
  {
    if ms != [] {
      RemoveEachKeeps(ms[..|ms| - 1], s, p);
      RemoveAllKeeps(RemoveEach(ms[..|ms| - 1], s), ms[|ms| - 1], p);
    }
  }
}

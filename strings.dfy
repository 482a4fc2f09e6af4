/**
 * String helpers shared by the cleaning stages: Python's notion of
 * whitespace, str.strip(), the `\s+` -> ' ' collapse, filters, sub-sequences,
 * str(n) for a natural number, split/join on one character and substring search.
 */
module Strings {
  import opened Wrappers

  /** Python's str.isspace(); `\s` in a str regex and str.strip() use this same set. */
  predicate IsSpace(c: char) {
    || ('\t' <= c <= '\r')
    || ('\U{1C}' <= c <= '\U{1F}')
    || c == ' '
    || c == '\U{85}'
    || c == '\U{A0}'
    || c == '\U{1680}'
    || ('\U{2000}' <= c <= '\U{200A}')
    || c == '\U{2028}'
    || c == '\U{2029}'
    || c == '\U{202F}'
    || c == '\U{205F}'
    || c == '\U{3000}'
  }

  predicate NotSpace(c: char) { !IsSpace(c) }

  /** The characters of `s` that satisfy `p`, in order. */
  function Filter(s: string, p: char -> bool): (r: string)
    ensures |r| <= |s|
    ensures forall k :: 0 <= k < |r| ==> p(r[k])
  {
    if s == [] then [] else (if p(s[0]) then [s[0]] else []) + Filter(s[1..], p)
  }

  lemma {:induction false} FilterConcat(a: string, b: string, p: char -> bool)
    ensures Filter(a + b, p) == Filter(a, p) + Filter(b, p)
  {
    if a == [] {
      assert a + b == b;
    } else {
      assert (a + b)[0] == a[0] && (a + b)[1..] == a[1..] + b;
      FilterConcat(a[1..], b, p);
    }
  }

  /** `a` is an order-preserving sub-sequence of `b`. */
  predicate IsSubseq<T(==)>(a: seq<T>, b: seq<T>)
    decreases |b|
  {
    if a == [] then true
    else if b == [] then false
    else (a[0] == b[0] && IsSubseq(a[1..], b[1..])) || IsSubseq(a, b[1..])
  }

  lemma {:induction false} SubseqRefl<T>(a: seq<T>)
    ensures IsSubseq(a, a)
  {
    if a != [] { SubseqRefl(a[1..]); }
  }

  lemma {:induction false} SubseqMembers<T>(a: seq<T>, b: seq<T>, x: T)
    requires IsSubseq(a, b) && x in a
    ensures x in b
    decreases |b|
  {
    if a[0] == b[0] && IsSubseq(a[1..], b[1..]) {
      if x != a[0] { SubseqMembers(a[1..], b[1..], x); }
    } else {
      SubseqMembers(a, b[1..], x);
    }
  }

  lemma {:induction false} SubseqTrans<T>(a: seq<T>, b: seq<T>, c: seq<T>)
    requires IsSubseq(a, b) && IsSubseq(b, c)
    ensures IsSubseq(a, c)
    decreases |c|
  {
    if a != [] {
      if b[0] == c[0] && IsSubseq(b[1..], c[1..]) {
        if a[0] == b[0] && IsSubseq(a[1..], b[1..]) {
          SubseqTrans(a[1..], b[1..], c[1..]);
        } else {
          SubseqTrans(a, b[1..], c[1..]);
        }
      } else {
        SubseqTrans(a, b, c[1..]);
      }
    }
  }

  /** Prepending the same element to both sides, or to the longer side alone, keeps a sub-sequence. */
  lemma SubseqCons<T>(x: T, a: seq<T>, b: seq<T>)
    requires IsSubseq(a, b)
    ensures IsSubseq([x] + a, [x] + b) && IsSubseq(a, [x] + b)
  {
    assert ([x] + a)[1..] == a;
    assert ([x] + b)[1..] == b;
  }

  /** Leading whitespace removed (str.lstrip()). */
  function TrimLeft(s: string): (r: string)
    ensures |r| <= |s| && r == s[|s| - |r|..]
    ensures r == [] || !IsSpace(r[0])
    ensures forall k :: 0 <= k < |s| - |r| ==> IsSpace(s[k])
  {
    if s != [] && IsSpace(s[0]) then TrimLeft(s[1..]) else s
  }

  /** Trailing whitespace removed (str.rstrip()). */
  function TrimRight(s: string): (r: string)
    ensures |r| <= |s| && r == s[..|r|]
    ensures r == [] || !IsSpace(r[|r| - 1])
    ensures forall k :: |r| <= k < |s| ==> IsSpace(s[k])
  {
    if s != [] && IsSpace(s[|s| - 1]) then TrimRight(s[..|s| - 1]) else s
  }

  /** str.strip() with no argument: no whitespace left at either end, none removed elsewhere. */
  function Strip(s: string): (r: string)
    ensures r == [] || (!IsSpace(r[0]) && !IsSpace(r[|r| - 1]))
    ensures Filter(r, NotSpace) == Filter(s, NotSpace)
  {
    var l := TrimLeft(s);
    TrimLeftKeepsText(s);
    TrimRightKeepsText(l);
    var r := TrimRight(l);
    assert r == [] || r[0] == l[0];
    r
  }

  /**
   * `strip()` cuts only at the ends: the result is one contiguous slice of the
   * text, everything before and after it is whitespace, and whitespace inside
   * it survives.
   */
  lemma StripSlice(s: string)
    ensures var i, r := |s| - |TrimLeft(s)|, Strip(s);
      && i + |r| <= |s| && r == s[i..i + |r|]
      && (forall k :: 0 <= k < i ==> IsSpace(s[k]))
      && (forall k :: i + |r| <= k < |s| ==> IsSpace(s[k]))
  {
    var l := TrimLeft(s);
    var r := TrimRight(l);
    var i := |s| - |l|;
    assert l == s[i..];
    forall k | i + |r| <= k < |s| ensures IsSpace(s[k]) {
      assert s[k] == l[k - i];
    }
  }

  /** Interior whitespace is kept: "a b" strips to itself, not to "ab". */
  lemma StripKeepsInnerSpace()
    ensures Strip("a b") == "a b"
  {
    StripSlice("a b");
  }

  /** Every whitespace character is a plain ' ' and no two whitespace characters are adjacent. */
  ghost predicate Collapsed(s: string) {
    && (forall k :: 0 <= k < |s| && IsSpace(s[k]) ==> s[k] == ' ')
    && (forall k :: !DoubleSpaceAt(s, k))
  }

  /** Positions k and k + 1 of `s` both hold whitespace. */
  predicate DoubleSpaceAt(s: string, k: nat) {
    k + 1 < |s| && IsSpace(s[k]) && IsSpace(s[k + 1])
  }

  /** Collapsed, and neither starts nor ends with whitespace. */
  ghost predicate Tidy(s: string) {
    Collapsed(s) && (s != [] ==> !IsSpace(s[0]) && !IsSpace(s[|s| - 1]))
  }

  /** re.sub(r'\s+', ' ', s): every maximal whitespace run becomes one ' '. */
  function CollapseSpace(s: string): (r: string)
    ensures r == [] <==> s == []
    ensures s != [] ==> (IsSpace(r[0]) <==> IsSpace(s[0]))
    ensures s != [] ==> (IsSpace(r[|r| - 1]) <==> IsSpace(s[|s| - 1]))
    decreases |s|
  {
    if s == [] then []
    else if IsSpace(s[0]) then [' '] + CollapseSpace(TrimLeft(s))
    else [s[0]] + CollapseSpace(s[1..])
  }

  lemma CollapsedCons(c: char, t: string)
    requires Collapsed(t)
    requires IsSpace(c) ==> c == ' ' && (t == [] || !IsSpace(t[0]))
    ensures Collapsed([c] + t)
  {
    var s := [c] + t;
    forall k: nat
      ensures !DoubleSpaceAt(s, k)
    {
      if 0 < k && k + 1 < |s| { assert s[k] == t[k - 1] && s[k + 1] == t[k] && !DoubleSpaceAt(t, k - 1); }
    }
    forall k | 0 <= k < |s| && IsSpace(s[k])
      ensures s[k] == ' '
    {
      if k > 0 { assert s[k] == t[k - 1]; }
    }
  }

  /** The collapse leaves only single plain spaces. */
  lemma {:induction false} CollapseIsCollapsed(s: string)
    ensures Collapsed(CollapseSpace(s))
    decreases |s|
  {
    if s != [] {
      if IsSpace(s[0]) {
        CollapseIsCollapsed(TrimLeft(s));
        CollapsedCons(' ', CollapseSpace(TrimLeft(s)));
      } else {
        CollapseIsCollapsed(s[1..]);
        CollapsedCons(s[0], CollapseSpace(s[1..]));
      }
    }
  }

  lemma {:induction false} AllSpaceFilter(s: string)
    requires forall k :: 0 <= k < |s| ==> IsSpace(s[k])
    ensures Filter(s, NotSpace) == []
  {
    if s != [] { AllSpaceFilter(s[1..]); }
  }

  /** Dropping leading whitespace keeps every non-whitespace character. */
  lemma TrimLeftKeepsText(s: string)
    ensures Filter(TrimLeft(s), NotSpace) == Filter(s, NotSpace)
  {
    var l := TrimLeft(s);
    assert s == s[..|s| - |l|] + l;
    FilterConcat(s[..|s| - |l|], l, NotSpace);
    AllSpaceFilter(s[..|s| - |l|]);
  }

  /** Dropping trailing whitespace keeps every non-whitespace character. */
  lemma TrimRightKeepsText(s: string)
    ensures Filter(TrimRight(s), NotSpace) == Filter(s, NotSpace)
  {
    var r := TrimRight(s);
    assert s == r + s[|r|..];
    FilterConcat(r, s[|r|..], NotSpace);
    AllSpaceFilter(s[|r|..]);
  }

  /** The collapse keeps the non-whitespace characters, in order. */
  lemma {:induction false} CollapseKeepsText(s: string)
    ensures Filter(CollapseSpace(s), NotSpace) == Filter(s, NotSpace)
    decreases |s|
  {
    if s != [] {
      if IsSpace(s[0]) {
        var rest := TrimLeft(s);
        CollapseKeepsText(rest);
        TrimLeftKeepsText(s);
        FilterConcat([' '], CollapseSpace(rest), NotSpace);
      } else {
        CollapseKeepsText(s[1..]);
        FilterConcat([s[0]], CollapseSpace(s[1..]), NotSpace);
        assert s == [s[0]] + s[1..];
        FilterConcat([s[0]], s[1..], NotSpace);
      }
    }
  }

  /** A slice of a collapsed string is collapsed. */
  lemma CollapsedSlice(s: string, lo: nat, hi: nat)
    requires lo <= hi <= |s| && Collapsed(s)
    ensures Collapsed(s[lo..hi])
  {
    var t := s[lo..hi];
    forall k: nat
      ensures !DoubleSpaceAt(t, k)
    {
      if k + 1 < |t| { assert t[k] == s[lo + k] && t[k + 1] == s[lo + k + 1] && !DoubleSpaceAt(s, lo + k); }
    }
    forall k | 0 <= k < |t| && IsSpace(t[k])
      ensures t[k] == ' '
    {
      assert t[k] == s[lo + k];
    }
  }

  /** Stripping a collapsed string leaves a tidy one. */
  lemma StripCollapsed(s: string)
    requires Collapsed(s)
    ensures Tidy(Strip(s))
  {
    var l := TrimLeft(s);
    TrimLeftCollapsed(s);
    TrimRightCollapsed(l);
    var r := TrimRight(l);
    if r != [] {
      assert r[0] == l[0];
    }
  }

  lemma TrimLeftCollapsed(s: string)
    requires Collapsed(s)
    ensures Collapsed(TrimLeft(s))
  {
    var l := TrimLeft(s);
    assert l == s[|s| - |l|..|s|];
    CollapsedSlice(s, |s| - |l|, |s|);
  }

  lemma TrimRightCollapsed(s: string)
    requires Collapsed(s)
    ensures Collapsed(TrimRight(s))
  {
    var r := TrimRight(s);
    assert r == s[0..|r|];
    CollapsedSlice(s, 0, |r|);
  }

  /** A string with no whitespace at either end is its own strip. */
  lemma StripNoEnds(s: string)
    requires s == [] || (!IsSpace(s[0]) && !IsSpace(s[|s| - 1]))
    ensures Strip(s) == s
  {
  }

  /** A collapsed string is its own `\s+` -> ' ' collapse. */
  lemma {:induction false} CollapseFixpoint(s: string)
    requires Collapsed(s)
    ensures CollapseSpace(s) == s
    decreases |s|
  {
    if s != [] {
      CollapsedSlice(s, 1, |s|);
      assert s[1..|s|] == s[1..];
      CollapseFixpoint(s[1..]);
      CollapseHead(s);
      assert [s[0]] + s[1..] == s;
    }
  }

  /** On a collapsed string the collapse moves on one character at a time. */
  lemma CollapseHead(s: string)
    requires Collapsed(s) && s != []
    ensures CollapseSpace(s) == [s[0]] + CollapseSpace(s[1..])
  {
    if IsSpace(s[0]) {
      var t := s[1..];
      assert !DoubleSpaceAt(s, 0);
      assert t == [] || !IsSpace(t[0]);
      assert TrimLeft(t) == t;
    }
  }

  /**
   * Collapse then strip: the tail of clean_text and of remove_unwanted_phrases_from_end.
   * The result is `' '.join(s.split())`.
   */
  function NormalizeSpace(s: string): (r: string)
    ensures r == JoinWith(Words(s), ' ')
    ensures Tidy(r)
    ensures Filter(r, NotSpace) == Filter(s, NotSpace)
  {
    CollapseIsCollapsed(s);
    CollapseKeepsText(s);
    StripCollapsed(CollapseSpace(s));
    CollapseStripWords(s);
    Strip(CollapseSpace(s))
  }

  /** The leading run of non-whitespace characters of `s`. */
  function Word(s: string): (w: string)
    ensures |w| <= |s| && w == s[..|w|]
    ensures forall k :: 0 <= k < |w| ==> !IsSpace(w[k])
    ensures |w| < |s| ==> IsSpace(s[|w|])
    ensures s != [] && !IsSpace(s[0]) ==> w != []
  {
    if s == [] || IsSpace(s[0]) then [] else [s[0]] + Word(s[1..])
  }

  /** A non-empty run of non-whitespace characters. */
  predicate IsWord(w: string) {
    w != [] && forall q :: 0 <= q < |w| ==> !IsSpace(w[q])
  }

  /** s.split() with no argument: the maximal runs of non-whitespace, in order. */
  function Words(s: string): (ws: seq<string>)
    ensures forall k :: 0 <= k < |ws| ==> IsWord(ws[k])
    decreases |s|
  {
    var t := TrimLeft(s);
    if t == [] then []
    else
      var w := Word(t);
      [w] + Words(t[|w|..])
  }

  /** The collapse copies a leading run of non-whitespace unchanged. */
  lemma {:induction false} CollapseWord(t: string)
    ensures CollapseSpace(t) == Word(t) + CollapseSpace(t[|Word(t)|..])
    decreases |t|
  {
    if t != [] && !IsSpace(t[0]) {
      CollapseWord(t[1..]);
      var w := Word(t[1..]);
      assert t[1..][|w|..] == t[|w| + 1..];
      assert Word(t) == [t[0]] + w;
    } else {
      assert t[0..] == t;
    }
  }

  /** Leading whitespace does not change the words. */
  lemma WordsTrimLeft(s: string)
    ensures Words(TrimLeft(s)) == Words(s)
    ensures Words(s) == [] <==> TrimLeft(s) == []
  {
    var t := TrimLeft(s);
    assert TrimLeft(t) == t;
  }

  lemma JoinCons(w: string, ws: seq<string>, d: char)
    requires ws != []
    ensures JoinWith([w] + ws, d) == w + [d] + JoinWith(ws, d)
  {
    assert ([w] + ws)[1..] == ws;
  }

  lemma Regroup3<T>(a: seq<T>, b: seq<T>, c: seq<T>)
    ensures a + (b + c) == a + b + c
  {
  }

  lemma Regroup<T>(a: seq<T>, b: seq<T>, c: seq<T>, d: seq<T>)
    ensures a + (b + (c + d)) == a + b + c + d
  {
  }

  /** The one space the collapse leaves after the last word when the text ends in whitespace. */
  function TrailingSpace(t: string): (r: string)
    ensures forall k :: 0 <= k < |r| ==> IsSpace(r[k])
  {
    if t != [] && IsSpace(t[|t| - 1]) then [' '] else []
  }

  /** A text starting with a word: that word, then the words of the rest. */
  lemma WordsCons(t: string)
    requires t != [] && !IsSpace(t[0])
    ensures Words(t) == [Word(t)] + Words(t[|Word(t)|..])
  {
    assert TrimLeft(t) == t;
  }

  /** A whitespace run becomes one space, and the collapse goes on after it. */
  lemma CollapseRun(t: string)
    requires t != [] && IsSpace(t[0])
    ensures CollapseSpace(t) == [' '] + CollapseSpace(TrimLeft(t))
  {
  }

  /** A text that is one word and trailing whitespace collapses to the word and one space. */
  lemma CollapseLastWord(t: string, w: string)
    requires w != [] && |w| <= |t| && w == t[..|w|] && !IsSpace(w[|w| - 1])
    requires TrimLeft(t[|w|..]) == []
    ensures TrailingSpace(t) == (if |w| < |t| then [' '] else [])
  {
    var rest := t[|w|..];
    if rest != [] {
      assert IsSpace(rest[|rest| - 1]);
      assert t[|t| - 1] == rest[|rest| - 1];
    } else {
      assert t[|t| - 1] == w[|w| - 1];
    }
  }

  /**
   * On a text that does not start with whitespace, the collapse is the words joined
   * by single spaces, with one more space when the text ends in whitespace.
   */
  lemma {:induction false} CollapseTrimmed(t: string)
    requires t == [] || !IsSpace(t[0])
    ensures CollapseSpace(t) == JoinWith(Words(t), ' ') + TrailingSpace(t)
    decreases |t|
  {
    if t != [] {
      var w := Word(t);
      var rest := t[|w|..];
      CollapseWord(t);
      WordsCons(t);
      WordsTrimLeft(rest);
      var t2 := TrimLeft(rest);
      if t2 == [] {
        CollapseLastWord(t, w);
        assert Words(t) == [w];
        assert JoinWith(Words(t), ' ') == w;
        if rest != [] {
          CollapseRun(rest);
          assert CollapseSpace(rest) == [' '];
          assert TrailingSpace(t) == [' '];
        } else {
          assert TrailingSpace(t) == [];
        }
      } else {
        var ws := Words(t2);
        CollapseRun(rest);
        CollapseTrimmed(t2);
        assert ws != [];
        assert Words(t) == [w] + ws;
        JoinCons(w, ws, ' ');
        assert t[|t| - 1] == t2[|t2| - 1];
        assert TrailingSpace(t) == TrailingSpace(t2);
        Regroup(w, [' '], JoinWith(ws, ' '), TrailingSpace(t2));
      }
    }
  }

  /** The one space the collapse leaves in front when the text starts with whitespace. */
  function LeadingSpace(s: string): (r: string)
    ensures forall k :: 0 <= k < |r| ==> IsSpace(r[k])
  {
    if s != [] && IsSpace(s[0]) then [' '] else []
  }

  /**
   * re.sub(r'\s+', ' ', s) in terms of s.split(): the words joined by single spaces,
   * one space in front when s starts with whitespace, and one at the back when
   * whitespace follows the last word.
   */
  lemma CollapseSpaceWords(s: string)
    ensures CollapseSpace(s) == LeadingSpace(s) + JoinWith(Words(s), ' ') + TrailingSpace(TrimLeft(s))
  {
    var t := TrimLeft(s);
    WordsTrimLeft(s);
    CollapseTrimmed(t);
    if s != [] && IsSpace(s[0]) {
      CollapseRun(s);
      assert CollapseSpace(s) == [' '] + CollapseSpace(t);
      assert CollapseSpace(t) == JoinWith(Words(s), ' ') + TrailingSpace(t);
      Regroup3([' '], JoinWith(Words(s), ' '), TrailingSpace(t));
      assert LeadingSpace(s) == [' '];
      assert CollapseSpace(s) == LeadingSpace(s) + JoinWith(Words(s), ' ') + TrailingSpace(TrimLeft(s));
    } else {
      assert t == s;
      assert LeadingSpace(s) == [];
      Regroup3([], JoinWith(Words(s), ' '), TrailingSpace(t));
      assert CollapseSpace(s) == LeadingSpace(s) + JoinWith(Words(s), ' ') + TrailingSpace(TrimLeft(s));
    }
  }

  /** Words joined by one separator: empty exactly without words, and no whitespace at either end. */
  lemma {:induction false} JoinWordsEnds(ws: seq<string>, d: char)
    requires forall k :: 0 <= k < |ws| ==> IsWord(ws[k])
    ensures JoinWith(ws, d) == [] <==> ws == []
    ensures ws != [] ==> !IsSpace(JoinWith(ws, d)[0]) && !IsSpace(JoinWith(ws, d)[|JoinWith(ws, d)| - 1])
  {
    if |ws| > 1 {
      assert forall k :: 0 <= k < |ws[1..]| ==> ws[1..][k] == ws[k + 1];
      JoinWordsEnds(ws[1..], d);
      assert IsWord(ws[0]);
    } else if |ws| == 1 {
      assert IsWord(ws[0]);
    }
  }

  /** Whitespace in front of a text that starts with a non-space is exactly what lstrip removes. */
  lemma {:induction false} TrimLeftSpaces(a: string, b: string)
    requires forall k :: 0 <= k < |a| ==> IsSpace(a[k])
    requires b == [] || !IsSpace(b[0])
    ensures TrimLeft(a + b) == b
  {
    if a == [] {
      assert a + b == b;
    } else {
      assert (a + b)[1..] == a[1..] + b;
      TrimLeftSpaces(a[1..], b);
    }
  }

  /** Whitespace after a text that ends in a non-space is exactly what rstrip removes. */
  lemma {:induction false} TrimRightSpaces(b: string, a: string)
    requires forall k :: 0 <= k < |a| ==> IsSpace(a[k])
    requires b == [] || !IsSpace(b[|b| - 1])
    ensures TrimRight(b + a) == b
  {
    if a == [] {
      assert b + a == b;
    } else {
      assert (b + a)[..|b + a| - 1] == b + a[..|a| - 1];
      TrimRightSpaces(b, a[..|a| - 1]);
    }
  }

  /** Collapse and strip give the words joined by single spaces. */
  lemma CollapseStripWords(s: string)
    ensures Strip(CollapseSpace(s)) == JoinWith(Words(s), ' ')
  {
    var j := JoinWith(Words(s), ' ');
    var lead := LeadingSpace(s);
    var trail := TrailingSpace(TrimLeft(s));
    CollapseSpaceWords(s);
    JoinWordsEnds(Words(s), ' ');
    Regroup3(lead, j, trail);
    if j == [] {
      assert j + trail == trail;
      TrimLeftSpaces(lead + trail, []);
      assert lead + trail + [] == lead + (j + trail);
    } else {
      TrimLeftSpaces(lead, j + trail);
      TrimRightSpaces(j, trail);
    }
  }

  /** A tidy string is left unchanged, so NormalizeSpace is idempotent. */
  lemma NormalizeSpaceFixpoint(s: string)
    requires Tidy(s)
    ensures NormalizeSpace(s) == s
  {
    CollapseFixpoint(s);
    StripNoEnds(s);
  }

  lemma NormalizeSpaceIdempotent(s: string)
    ensures NormalizeSpace(NormalizeSpace(s)) == NormalizeSpace(s)
  {
    NormalizeSpaceFixpoint(NormalizeSpace(s));
  }

  /** A sub-sequence of a suffix is a sub-sequence of the whole. */
  lemma {:induction false} SuffixSubseq<T>(a: seq<T>, s: seq<T>, k: nat)
    requires k <= |s| && IsSubseq(a, s[k..])
    ensures IsSubseq(a, s)
    decreases k
  {
    if k > 0 {
      assert s[k..] == s[1..][k - 1..];
      SuffixSubseq(a, s[1..], k - 1);
      SubseqCons(s[0], a, s[1..]);
      assert [s[0]] + s[1..] == s;
    }
  }

  /** Stripping only deletes. */
  lemma StripSubseq(s: string)
    ensures IsSubseq(Strip(s), s)
  {
    var l := TrimLeft(s);
    var r := TrimRight(l);
    PrefixSubseq(r, l, |l| - |r|);
    SubseqRefl(l);
    SuffixSubseq(l, s, |s| - |l|);
    SubseqTrans(r, l, s);
  }

  /** Appending elements to the longer side keeps a sub-sequence. */
  lemma {:induction false} PrefixSubseq(a: string, b: string, extra: nat)
    requires extra <= |b| && b[..|b| - extra] == a
    ensures IsSubseq(a, b)
    decreases |b|
  {
    if a != [] {
      assert b[0] == a[0];
      assert b[1..][..|b| - 1 - extra] == a[1..];
      PrefixSubseq(a[1..], b[1..], extra);
    }
  }

  /** Stripping twice is stripping once. */
  lemma StripIdempotent(s: string)
    ensures Strip(Strip(s)) == Strip(s)
  {
    StripNoEnds(Strip(s));
  }

  /** Index of the first occurrence of `c` in `s`. */
  function IndexOf(s: string, c: char): (r: Option<nat>)
    ensures r.None? <==> c !in s
    ensures r.Some? ==> r.value < |s| && s[r.value] == c && c !in s[..r.value]
  {
    if s == [] then None
    else if s[0] == c then Some(0)
    else match IndexOf(s[1..], c)
      case None => None
      case Some(j) => assert s[..j + 1] == [s[0]] + s[1..][..j]; Some(j + 1)
  }

  /** Python's `sub in s` for strings. */
  predicate IsSubstring(sub: string, s: string)
    decreases |s|
  {
    sub <= s || (s != [] && IsSubstring(sub, s[1..]))
  }

  /** s.endswith(suffix) */
  predicate EndsWith(s: string, suffix: string) {
    |suffix| <= |s| && s[|s| - |suffix|..] == suffix
  }

  lemma EndsWithConcat(s: string, suffix: string)
    ensures EndsWith(s + suffix, suffix)
  {
    assert (s + suffix)[|s|..] == suffix;
  }

  function DigitChar(d: nat): (c: char)
    requires d < 10
    ensures '0' <= c <= '9'
  {
    ('0' as int + d) as char
  }

  /** str(n) for a non-negative int. */
  function NatToString(n: nat): (r: string)
    ensures |r| >= 1
    ensures forall k :: 0 <= k < |r| ==> '0' <= r[k] <= '9'
  {
    if n < 10 then [DigitChar(n)] else NatToString(n / 10) + [DigitChar(n % 10)]
  }

  /** The number a string of decimal digits spells. */
  function DecimalValue(s: string): nat
    requires forall k :: 0 <= k < |s| ==> '0' <= s[k] <= '9'
  {
    if s == [] then 0 else 10 * DecimalValue(s[..|s| - 1]) + (s[|s| - 1] as int - '0' as int)
  }

  /** str(n) spells n, with no leading zero unless n is 0. */
  lemma {:induction false} NatToStringValue(n: nat)
    ensures DecimalValue(NatToString(n)) == n
    ensures NatToString(n)[0] == '0' <==> n == 0
  {
    if n >= 10 {
      NatToStringValue(n / 10);
      var s := NatToString(n);
      assert s[..|s| - 1] == NatToString(n / 10);
    }
  }

  /** s.split(d) for a one-character separator. */
  function SplitOn(s: string, d: char): (r: seq<string>)
    ensures |r| >= 1
    ensures forall k :: 0 <= k < |r| ==> d !in r[k]
  {
    if s == [] then [[]]
    else
      var rest := SplitOn(s[1..], d);
      if s[0] == d then [[]] + rest
      else [[s[0]] + rest[0]] + rest[1..]
  }

  /** d.join(parts) for a one-character separator. */
  function JoinWith(parts: seq<string>, d: char): string {
    if parts == [] then []
    else if |parts| == 1 then parts[0]
    else parts[0] + [d] + JoinWith(parts[1..], d)
  }

  /** A text without the separator splits into itself alone. */
  lemma {:induction false} SplitWithoutSeparator(s: string, d: char)
    requires d !in s
    ensures SplitOn(s, d) == [s]
  {
    if s != [] {
      SplitWithoutSeparator(s[1..], d);
      assert s[0] != d;
      assert [s[0]] + s[1..] == s;
    }
  }

  /** Joining what was split gives the text back. */
  lemma {:induction false} JoinSplit(s: string, d: char)
    ensures JoinWith(SplitOn(s, d), d) == s
  {
    if s != [] {
      var rest := SplitOn(s[1..], d);
      JoinSplit(s[1..], d);
      if s[0] == d {
        assert JoinWith([[]] + rest, d) == [] + [d] + JoinWith(rest, d);
      } else {
        var parts := [[s[0]] + rest[0]] + rest[1..];
        if |rest| == 1 {
          assert parts == [[s[0]] + rest[0]];
        } else {
          assert parts[1..] == rest[1..];
          assert JoinWith(rest, d) == rest[0] + [d] + JoinWith(rest[1..], d);
        }
      }
    }
  }
}

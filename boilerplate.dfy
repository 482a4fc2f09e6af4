/**
 * The two rule lists of the pruner: remove_unwanted_sections (keyword plus
 * the rest of its word, case-insensitive) and remove_unwanted_phrases_from_end
 * (phrase patterns, longest pattern first, then whitespace normalisation).
 */
module Boilerplate {
  import opened Wrappers
  import opened Strings
  import Scan

  // ---------------------------------------------------------------------------
  // remove_unwanted_sections
  // ---------------------------------------------------------------------------

  /**
   * One rule `KEYWORD[\s\S]*?(?=\s|$)` (toWordEnd) or a bare `KEYWORD`, applied with
   * re.IGNORECASE. Every keyword of the list is a literal: none uses a regex operator.
   */
  datatype SectionRule = SectionRule(keyword: string, toWordEnd: bool)

  /** The rule list, in the order the source applies it. */
  const SectionRules: seq<SectionRule> := [
    SectionRule("モバイル版へ戻る", true),
    SectionRule("新規登録 / ログイン", true),
    SectionRule("新着記事", true),
    SectionRule("ピックアップ", true),
    SectionRule("ランキング", true),
    SectionRule("コメント", true),
    SectionRule("議論", true),
    SectionRule("ブロガー", true),
    SectionRule("政治家", true),
    SectionRule("アンケート", true),
    SectionRule("<NE>facebook</NE>", true),
    SectionRule("livedoor", true),
    SectionRule("<NE>twitter</NE>", true),
    SectionRule("ID", true),
    SectionRule("TwitterID", true),
    SectionRule("google", true),
    SectionRule("BLOGOS", true),
    SectionRule("FacebookID", true),
    SectionRule("TwitterID", true),
    SectionRule("Facebook", true),
    SectionRule("facebook", true),
    SectionRule("<NE>facebook</NE>", true),
    SectionRule("<NE>facebook</NE>", false),
    SectionRule("facebook", false),
    SectionRule("FacebookID", true),
    SectionRule("TwitterID", true),
    SectionRule("Facebook", true)
  ]

  /** ASCII case folding: the letters A-Z map to a-z, everything else to itself. */
  function Fold(c: char): char {
    if 'A' <= c <= 'Z' then (c as int + 32) as char else c
  }

  /** `t` starts with `word`, ignoring ASCII case. */
  predicate StartsWithIgnoreCase(word: string, t: string) {
    |word| <= |t| && forall k :: 0 <= k < |word| ==> Fold(t[k]) == Fold(word[k])
  }

  /** Length of the run of non-whitespace characters at the start of `t`. */
  function NonSpaceRun(t: string): (n: nat)
    ensures n <= |t|
    ensures forall k :: 0 <= k < n ==> !IsSpace(t[k])
    ensures n == |t| || IsSpace(t[n])
  {
    if t == [] || IsSpace(t[0]) then 0 else 1 + NonSpaceRun(t[1..])
  }

  /**
   * Where a rule matches at the start of `t`: the keyword, and for `[\s\S]*?(?=\s|$)`
   * the fewest further characters after which whitespace or the end follows,
   * i.e. the non-whitespace run right after the keyword.
   */
  function SectionMatch(rule: SectionRule, t: string): (n: nat)
    ensures n <= |t|
    ensures n > 0 <==> rule.keyword != [] && StartsWithIgnoreCase(rule.keyword, t)
    ensures n > 0 && !rule.toWordEnd ==> n == |rule.keyword|
    ensures n > 0 && rule.toWordEnd ==>
      && |rule.keyword| <= n
      && (forall k :: |rule.keyword| <= k < n ==> !IsSpace(t[k]))
      && (n == |t| || IsSpace(t[n]))
  {
    var k := |rule.keyword|;
    if k > 0 && StartsWithIgnoreCase(rule.keyword, t) then
      k + (if rule.toWordEnd then NonSpaceRun(t[k..]) else 0)
    else 0
  }

  function SectionMatcher(rule: SectionRule): Scan.Matcher {
    t => SectionMatch(rule, t)
  }

  function SectionMatchers(rules: seq<SectionRule>): (ms: seq<Scan.Matcher>)
    ensures |ms| == |rules|
    ensures forall i :: 0 <= i < |rules| ==> ms[i] == SectionMatcher(rules[i])
  {
    seq(|rules|, i requires 0 <= i < |rules| => SectionMatcher(rules[i]))
  }

  /**
   * A to-word-end match stops right before whitespace or at the end of the text:
   * it never runs on to the end of the text across whitespace.
   */
  lemma SectionMatchStopsAtSpace(rule: SectionRule, t: string)
    requires rule.toWordEnd && Scan.MatchesAt(SectionMatcher(rule), t)
    ensures var n := SectionMatch(rule, t); n == |t| || IsSpace(t[n])
  {
    var k := |rule.keyword|;
    var run := NonSpaceRun(t[k..]);
    assert run == |t[k..]| || t[k + run] == t[k..][run];
  }

  predicate SpaceFree(word: string) {
    forall k :: 0 <= k < |word| ==> !IsSpace(word[k])
  }

  lemma FoldKeepsSpace(c: char, d: char)
    requires Fold(c) == Fold(d) && !IsSpace(d)
    ensures !IsSpace(c)
  {
  }

  /** A rule whose keyword holds no whitespace never deletes whitespace. */
  lemma SectionMatcherAvoidsSpace(rule: SectionRule)
    requires SpaceFree(rule.keyword)
    ensures Scan.MatchesAvoid(SectionMatcher(rule), IsSpace)
  {
    var m := SectionMatcher(rule);
    forall t | Scan.MatchesAt(m, t)
      ensures Filter(t[..m(t)], IsSpace) == []
    {
      var n := SectionMatch(rule, t);
      var k := |rule.keyword|;
      forall q | 0 <= q < n ensures !IsSpace(t[q]) {
        if q < k {
          FoldKeepsSpace(t[q], rule.keyword[q]);
        } else {
          assert t[q] == t[k..][q - k];
        }
      }
      NoSpaceFilter(t[..n]);
    }
  }

  lemma {:induction false} NoSpaceFilter(s: string)
    requires forall q :: 0 <= q < |s| ==> !IsSpace(s[q])
    ensures Filter(s, IsSpace) == []
  {
    if s != [] { NoSpaceFilter(s[1..]); }
  }

  /**
   * A list of rules without whitespace in their keywords keeps every whitespace
   * character, in order. SectionRules itself is not such a list: the keyword
   * "新規登録 / ログイン" holds two spaces, so this says nothing about the full
   * list, only about lists of the other rules.
   */
  lemma SpaceFreeRulesKeepSpaces(rules: seq<SectionRule>, text: string)
    requires forall i :: 0 <= i < |rules| ==> SpaceFree(rules[i].keyword)
    ensures Filter(Scan.RemoveEach(SectionMatchers(rules), text), IsSpace) == Filter(text, IsSpace)
  {
    var ms := SectionMatchers(rules);
    forall i | 0 <= i < |ms| ensures Scan.MatchesAvoid(ms[i], IsSpace) {
      SectionMatcherAvoidsSpace(rules[i]);
    }
    Scan.RemoveEachKeeps(ms, text, IsSpace);
  }

  /** The rule `ID` turns "video" into "v": it takes "ideo", the keyword and the rest of the word. */
  lemma SectionRuleCutsWord()
    ensures Scan.RemoveAll("video", SectionMatcher(SectionRule("ID", true))) == "v"
  {
    var rule := SectionRule("ID", true);
    var m := SectionMatcher(rule);
    assert !StartsWithIgnoreCase("ID", "video");
    assert "video"[1..] == "ideo";
    assert StartsWithIgnoreCase("ID", "ideo");
    assert "ideo"[2..] == "eo";
    assert NonSpaceRun("eo") == 2 by {
      assert "eo"[1..] == "o";
      assert "o"[1..] == [];
    }
    assert m("ideo") == 4;
    assert Scan.RemoveAll("ideo", m) == [];
  }

  /** The rule stops at the next space: "コメント欄 本文" keeps " 本文". */
  lemma SectionRuleStopsAtSpace()
    ensures Scan.RemoveAll("コメント欄 本文", SectionMatcher(SectionRule("コメント", true))) == " 本文"
  {
    var s := "コメント欄 本文";
    var rule := SectionRule("コメント", true);
    var m := SectionMatcher(rule);
    assert StartsWithIgnoreCase("コメント", s);
    assert s[4..] == "欄 本文";
    assert NonSpaceRun("欄 本文") == 1 by {
      assert "欄 本文"[1..] == " 本文";
    }
    assert m(s) == 5;
    assert s[5..] == " 本文";
    var t := " 本文";
    assert !StartsWithIgnoreCase("コメント", t);
    assert !StartsWithIgnoreCase("コメント", t[1..]);
    assert !StartsWithIgnoreCase("コメント", t[1..][1..]);
    assert t[1..][1..][1..] == [];
    assert Scan.RemoveAll(t, m) == t;
  }

  /** remove_unwanted_sections: apply each rule in list order to the running text. */
  method RemoveUnwantedSections(text: string) returns (r: string)
    ensures r == Scan.RemoveEach(SectionMatchers(SectionRules), text)
  {
    r := RemoveSections(SectionRules, text);
  }

  /** The loop of remove_unwanted_sections over any rule list: one substitution per rule, in order. */
  method RemoveSections(patterns: seq<SectionRule>, text: string) returns (r: string)
    ensures r == Scan.RemoveEach(SectionMatchers(patterns), text)
  {
    r := text;
    for i := 0 to |patterns|
      invariant r == Scan.RemoveEach(SectionMatchers(patterns[..i]), text)
    {
      r := Scan.RemoveAll(r, SectionMatcher(patterns[i]));
      assert SectionMatchers(patterns[..i + 1])[..i] == SectionMatchers(patterns[..i]);
    }
    assert patterns[..|patterns|] == patterns;
  }

  /** The whole rule list only deletes characters. */
  lemma SectionsOnlyDelete(text: string)
    ensures IsSubseq(Scan.RemoveEach(SectionMatchers(SectionRules), text), text)
  {
  }

  // ---------------------------------------------------------------------------
  // remove_unwanted_phrases_from_end
  // ---------------------------------------------------------------------------

  /** The phrase patterns as regex source text, in list order. */
  const UnwantedPhrases: seq<string> := [
    "<NE>Twitter</NE>\\(公式アカウント\\)",
    "<NE>Facebook</NE>\\(ファンページ\\)",
    "<NE>Google</NE>\\+",
    "Ustream",
    "ニコニコ",
    "<NE>YouTube</NE>",
    "関連サービス",
    "livedoor",
    "livedoor ニュース",
    "© <NE>LINE</NE> Corporation",
    "ログイン",
    "ログインするアカウントをお選びください。",
    "以下のいずれかのアカウントでBLOGOSにログインすることができます。",
    "コメントを書き込むには",
    "FacebookID、TwitterID のいずれかで認証を行う必要があります。",
    "※livedoorIDでログインした場合、ご利用できるのはフォロー機能、マイページ機能、支持するボタンのみとなります。",
    "<NE>twitter</NE> ID",
    "<NE>facebook</NE> ID",
    "livedoor ID",
    "ログインしてBLOGOSをもっと便利に",
    "Tweet \\d+ コメント"
  ]

  /** One element of a phrase pattern: a literal character, or `\d+`. */
  datatype Atom = Char(c: char) | Digits

  /**
   * The regex syntax the phrase sources use: `\d+`, a backslash escape of one
   * character, and literal characters.
   */
  function Compile(source: string): (atoms: seq<Atom>)
    ensures |atoms| <= |source|
  {
    if source == [] then []
    else if |source| >= 3 && source[..3] == "\\d+" then [Digits] + Compile(source[3..])
    else if |source| >= 2 && source[0] == '\\' then [Char(source[1])] + Compile(source[2..])
    else [Char(source[0])] + Compile(source[1..])
  }

  predicate IsAsciiDigit(c: char) { '0' <= c <= '9' }

  function DigitRun(t: string): (n: nat)
    ensures n <= |t|
  {
    if t == [] || !IsAsciiDigit(t[0]) then 0 else 1 + DigitRun(t[1..])
  }

  /**
   * Length of the match of `atoms` at the start of `t`. `\d+` takes the whole
   * digit run; in the only pattern that has it, a space follows, so giving
   * digits back could never help the match.
   */
  function AtomsMatch(atoms: seq<Atom>, t: string): (r: Option<nat>)
    ensures r.Some? ==> r.value <= |t|
  {
    if atoms == [] then Some(0)
    else match atoms[0]
      case Char(c) =>
        if t != [] && t[0] == c then
          match AtomsMatch(atoms[1..], t[1..])
          case Some(n) => Some(n + 1)
          case None => None
        else None
      case Digits =>
        var d := DigitRun(t);
        if d == 0 then None
        else
          match AtomsMatch(atoms[1..], t[d..])
          case Some(n) => Some(d + n)
          case None => None
  }

  function PhraseMatch(source: string, t: string): (n: nat)
    ensures n <= |t|
  {
    match AtomsMatch(Compile(source), t)
    case Some(n) => n
    case None => 0
  }

  function PhraseMatcher(source: string): Scan.Matcher {
    t => PhraseMatch(source, t)
  }

  function PhraseMatchers(sources: seq<string>): (ms: seq<Scan.Matcher>)
    ensures |ms| == |sources|
    ensures forall i :: 0 <= i < |sources| ==> ms[i] == PhraseMatcher(sources[i])
  {
    seq(|sources|, i requires 0 <= i < |sources| => PhraseMatcher(sources[i]))
  }

  /** A pattern without escapes matches exactly its own text. */
  lemma {:induction false} LiteralMatch(source: string, t: string)
    requires '\\' !in source
    ensures AtomsMatch(Compile(source), t) == if source <= t then Some(|source|) else None
  {
    if source != [] {
      assert source[0] != '\\';
      assert !(|source| >= 3 && source[..3] == "\\d+");
      assert Compile(source) == [Char(source[0])] + Compile(source[1..]);
      assert Compile(source)[1..] == Compile(source[1..]);
      if t != [] && t[0] == source[0] {
        LiteralMatch(source[1..], t[1..]);
        assert source <= t <==> source[1..] <= t[1..];
      }
    }
  }

  /** A match length moved on by `n` characters already consumed; no match stays no match. */
  function Shift(r: Option<nat>, n: nat): Option<nat> {
    match r
    case Some(m) => Some(m + n)
    case None => None
  }

  /** One literal atom per character of `p`. */
  function Literal(p: string): seq<Atom> {
    seq(|p|, k requires 0 <= k < |p| => Char(p[k]))
  }

  /** A backslash-free prefix compiles character by character, and the rest compiles on its own. */
  lemma {:induction false} CompileLiteralPrefix(p: string, q: string)
    requires '\\' !in p
    ensures Compile(p + q) == Literal(p) + Compile(q)
  {
    if p == [] {
      assert p + q == q;
    } else {
      var s := p + q;
      assert s[0] == p[0] && s[0] != '\\';
      assert !(|s| >= 3 && s[..3] == "\\d+");
      assert s[1..] == p[1..] + q;
      CompileLiteralPrefix(p[1..], q);
      assert Literal(p) == [Char(p[0])] + Literal(p[1..]);
    }
  }

  /** A backslash before any character but `d` makes that character literal. */
  lemma CompileEscape(c: char, q: string)
    requires c != 'd'
    ensures Compile(['\\', c] + q) == [Char(c)] + Compile(q)
  {
    var s := ['\\', c] + q;
    assert |s| >= 3 ==> s[..3][1] == c;
    assert s[2..] == q;
  }

  /** `\d+` compiles to the digit-run atom. */
  lemma CompileDigits(q: string)
    ensures Compile("\\d+" + q) == [Digits] + Compile(q)
  {
    var s := "\\d+" + q;
    assert s[..3] == "\\d+";
    assert s[3..] == q;
  }

  /** Literal atoms match exactly their own text; then the rest of the pattern goes on from there. */
  lemma {:induction false} LiteralThen(p: string, rest: seq<Atom>, t: string)
    ensures AtomsMatch(Literal(p) + rest, t) ==
      if p <= t then Shift(AtomsMatch(rest, t[|p|..]), |p|) else None
  {
    if p == [] {
      assert Literal(p) + rest == rest;
      assert t[|p|..] == t;
    } else {
      var atoms := Literal(p) + rest;
      assert atoms[0] == Char(p[0]);
      assert atoms[1..] == Literal(p[1..]) + rest;
      if t != [] && t[0] == p[0] {
        LiteralThen(p[1..], rest, t[1..]);
        assert p <= t <==> p[1..] <= t[1..];
        if p <= t {
          assert t[1..][|p| - 1..] == t[|p|..];
        }
      } else {
        assert !(p <= t);
      }
    }
  }

  /** A pattern that compiles to the literal atoms of `x` matches exactly `x`. */
  lemma LiteralAtomsMatch(x: string, t: string)
    ensures AtomsMatch(Literal(x), t) == if x <= t then Some(|x|) else None
  {
    LiteralThen(x, [], t);
    assert Literal(x) + [] == Literal(x);
  }

  /** `\d+` takes the whole digit run at the start of the text, which must not be empty. */
  lemma DigitsThen(rest: seq<Atom>, t: string)
    ensures AtomsMatch([Digits] + rest, t) ==
      if DigitRun(t) == 0 then None else Shift(AtomsMatch(rest, t[DigitRun(t)..]), DigitRun(t))
  {
    var atoms := [Digits] + rest;
    assert atoms != [] && atoms[0] == Digits && atoms[1..] == rest;
    var d := DigitRun(t);
    if d == 0 {
      assert AtomsMatch(atoms, t) == None;
    } else {
      assert AtomsMatch(atoms, t) == Shift(AtomsMatch(rest, t[d..]), d);
    }
  }

  /** `a\(m\)`, with `a` and `m` free of backslashes, matches exactly the text `a(m)`. */
  lemma EscapedParensMatch(a: string, m: string, t: string)
    requires '\\' !in a && '\\' !in m
    ensures PhraseMatch(a + "\\(" + m + "\\)", t) ==
      if a + "(" + m + ")" <= t then |a| + |m| + 2 else 0
  {
    var close: string := ['\\', ')'] + [];
    assert a + "\\(" + m + "\\)" == a + (['\\', '('] + (m + close));
    CompileLiteralPrefix(a, ['\\', '('] + (m + close));
    CompileEscape('(', m + close);
    CompileLiteralPrefix(m, close);
    CompileEscape(')', []);
    var x := a + "(" + m + ")";
    assert Literal(a) + ([Char('(')] + (Literal(m) + ([Char(')')] + []))) == Literal(x);
    LiteralAtomsMatch(x, t);
  }

  /** `a\+`, with `a` free of backslashes, matches exactly the text `a+`. */
  lemma EscapedPlusMatch(a: string, t: string)
    requires '\\' !in a
    ensures PhraseMatch(a + "\\+", t) == if a + "+" <= t then |a| + 1 else 0
  {
    assert a + "\\+" == a + (['\\', '+'] + []);
    CompileLiteralPrefix(a, ['\\', '+'] + []);
    CompileEscape('+', []);
    var x := a + "+";
    assert Literal(a) + ([Char('+')] + []) == Literal(x);
    LiteralAtomsMatch(x, t);
  }

  /** The three escaped phrases of the list are of those two forms. */
  lemma EscapedPhrases()
    ensures UnwantedPhrases[0] == "<NE>Twitter</NE>" + "\\(" + "公式アカウント" + "\\)"
    ensures UnwantedPhrases[1] == "<NE>Facebook</NE>" + "\\(" + "ファンページ" + "\\)"
    ensures UnwantedPhrases[2] == "<NE>Google</NE>" + "\\+"
    ensures '\\' !in "<NE>Twitter</NE>" && '\\' !in "公式アカウント"
    ensures '\\' !in "<NE>Facebook</NE>" && '\\' !in "ファンページ" && '\\' !in "<NE>Google</NE>"
  {
  }

  /**
   * `Tweet \d+ コメント` matches "Tweet ", then the whole run of digits that
   * follows, which must not be empty, then " コメント"; nothing else.
   */
  lemma TweetCountMatch(t: string)
    ensures UnwantedPhrases[20] == "Tweet \\d+ コメント"
    ensures var d := if |t| >= 6 then DigitRun(t[6..]) else 0;
      PhraseMatch("Tweet \\d+ コメント", t) ==
        if "Tweet " <= t && d > 0 && " コメント" <= t[6 + d..] then 11 + d else 0
  {
    var tail := " コメント";
    var rest := Literal(tail) + [];
    TweetCompiles();
    LiteralThen("Tweet ", [Digits] + rest, t);
    if "Tweet " <= t {
      var u := t[6..];
      DigitsThen(rest, u);
      var d := DigitRun(u);
      if d > 0 {
        LiteralThen(tail, [], u[d..]);
        assert u[d..] == t[6 + d..];
      }
    }
  }

  /** `Tweet \d+ コメント` compiles to six literal atoms, the digit run, then five literal atoms. */
  lemma TweetCompiles()
    ensures Compile("Tweet \\d+ コメント") == Literal("Tweet ") + ([Digits] + (Literal(" コメント") + []))
  {
    var tail := " コメント";
    assert "Tweet \\d+ コメント" == "Tweet " + ("\\d+" + (tail + []));
    CompileLiteralPrefix("Tweet ", "\\d+" + (tail + []));
    CompileDigits(tail + []);
    CompileLiteralPrefix(tail, []);
  }

  /** Python's list.sort(key=len, reverse=True): longest first, equal lengths in list order. */
  function SortByLength(ps: seq<string>): (r: seq<string>)
    ensures |r| == |ps|
    ensures LongestFirst(r)
  {
    if ps == [] then []
    else
      var init, last := ps[..|ps| - 1], ps[|ps| - 1];
      InsertKeepsOrder(last, SortByLength(init));
      assert ps == init + [last];
      InsertByLength(last, SortByLength(init))
  }

  /** Place `x` after every element at least as long as it. */
  function InsertByLength(x: string, sorted: seq<string>): (r: seq<string>)
    ensures |r| == |sorted| + 1
    ensures multiset(r) == multiset(sorted) + multiset{x}
    ensures r[0] == x || (sorted != [] && r[0] == sorted[0])
  {
    if sorted == [] || |sorted[0]| < |x| then [x] + sorted
    else
      assert sorted == [sorted[0]] + sorted[1..];
      [sorted[0]] + InsertByLength(x, sorted[1..])
  }

  /** Each element is at least as long as the next one. */
  ghost predicate LongestFirst(ps: seq<string>) {
    forall i :: 0 < i < |ps| ==> |ps[i - 1]| >= |ps[i]|
  }

  /** The elements of `ps` whose length is `n`, in order. */
  function OfLength(ps: seq<string>, n: nat): seq<string> {
    if ps == [] then [] else (if |ps[0]| == n then [ps[0]] else []) + OfLength(ps[1..], n)
  }

  lemma {:induction false} OfLengthConcat(a: seq<string>, b: seq<string>, n: nat)
    ensures OfLength(a + b, n) == OfLength(a, n) + OfLength(b, n)
  {
    if a == [] {
      assert a + b == b;
    } else {
      assert (a + b)[0] == a[0] && (a + b)[1..] == a[1..] + b;
      OfLengthConcat(a[1..], b, n);
    }
  }

  lemma LongestFirstTail(sorted: seq<string>)
    requires LongestFirst(sorted) && sorted != []
    ensures LongestFirst(sorted[1..])
  {
    var tail := sorted[1..];
    forall i | 0 < i < |tail| ensures |tail[i - 1]| >= |tail[i]| {
      assert tail[i - 1] == sorted[i] && tail[i] == sorted[i + 1];
    }
  }

  lemma InsertKeepsOrder(x: string, sorted: seq<string>)
    requires LongestFirst(sorted)
    ensures LongestFirst(InsertByLength(x, sorted))
  {
    if sorted == [] || |sorted[0]| < |x| {
      var r := [x] + sorted;
      forall i | 0 < i < |r| ensures |r[i - 1]| >= |r[i]| {
        if i > 1 { assert r[i - 1] == sorted[i - 2] && r[i] == sorted[i - 1]; }
      }
    } else {
      var tail := sorted[1..];
      LongestFirstTail(sorted);
      InsertKeepsOrder(x, tail);
      var rest := InsertByLength(x, tail);
      var r := [sorted[0]] + rest;
      assert |sorted[0]| >= |rest[0]| by {
        if rest[0] != x { assert rest[0] == sorted[1]; }
      }
      forall i | 0 < i < |r| ensures |r[i - 1]| >= |r[i]| {
        if i > 1 { assert r[i - 1] == rest[i - 2] && r[i] == rest[i - 1]; }
      }
    }
  }

  /** In a longest-first list headed by something shorter than n, nothing has length n. */
  lemma {:induction false} NoneOfLength(sorted: seq<string>, n: nat)
    requires LongestFirst(sorted) && (sorted == [] || |sorted[0]| < n)
    ensures OfLength(sorted, n) == []
  {
    if sorted != [] {
      var tail := sorted[1..];
      LongestFirstTail(sorted);
      if tail != [] { assert |tail[0]| <= |sorted[0]|; }
      NoneOfLength(tail, n);
    }
  }

  /** Inserting in front of shorter elements adds x after the (absent) elements of its length. */
  lemma InsertInFront(x: string, sorted: seq<string>, n: nat)
    requires LongestFirst(sorted) && (sorted == [] || |sorted[0]| < |x|)
    ensures OfLength([x] + sorted, n) == OfLength(sorted, n) + (if |x| == n then [x] else [])
  {
    OfLengthConcat([x], sorted, n);
    assert OfLength([x], n) == (if |x| == n then [x] else []) by { assert [x][1..] == []; }
    if |x| == n {
      NoneOfLength(sorted, n);
    }
  }

  /** Among elements of one length, the inserted element comes last. */
  lemma {:induction false} InsertOfLength(x: string, sorted: seq<string>, n: nat)
    requires LongestFirst(sorted)
    ensures OfLength(InsertByLength(x, sorted), n)
         == OfLength(sorted, n) + (if |x| == n then [x] else [])
  {
    if sorted == [] || |sorted[0]| < |x| {
      assert InsertByLength(x, sorted) == [x] + sorted;
      InsertInFront(x, sorted, n);
    } else {
      var tail := sorted[1..];
      LongestFirstTail(sorted);
      InsertOfLength(x, tail, n);
      var rest := InsertByLength(x, tail);
      var head: seq<string> := if |sorted[0]| == n then [sorted[0]] else [];
      assert InsertByLength(x, sorted) == [sorted[0]] + rest;
      assert ([sorted[0]] + rest)[1..] == rest;
      assert OfLength([sorted[0]] + rest, n) == head + OfLength(rest, n);
      assert OfLength(sorted, n) == head + OfLength(tail, n);
      Regroup3(head, OfLength(tail, n), if |x| == n then [x] else []);
    }
  }

  /** The sort is a permutation: the same elements with the same counts. */
  lemma {:induction false} SortByLengthPermutes(ps: seq<string>)
    ensures multiset(SortByLength(ps)) == multiset(ps)
  {
    if ps != [] {
      var init, last := ps[..|ps| - 1], ps[|ps| - 1];
      SortByLengthPermutes(init);
      assert ps == init + [last];
      assert multiset(ps) == multiset(init) + multiset{last};
    }
  }

  /** The sort is stable: the elements of any one length keep their list order. */
  lemma {:induction false} SortByLengthStable(ps: seq<string>, n: nat)
    ensures OfLength(SortByLength(ps), n) == OfLength(ps, n)
  {
    if ps != [] {
      var init, last := ps[..|ps| - 1], ps[|ps| - 1];
      SortByLengthStable(init, n);
      InsertOfLength(last, SortByLength(init), n);
      assert ps == init + [last];
      OfLengthConcat(init, [last], n);
      assert OfLength([last], n) == (if |last| == n then [last] else []) by { assert [last][1..] == []; }
    }
  }

  /** A literal pattern at the start of the text is removed whatever follows it, not only at the end. */
  lemma LiteralRemovedAnywhere(p: string, t: string)
    requires p != [] && '\\' !in p
    ensures Scan.RemoveAll(p + t, PhraseMatcher(p)) == Scan.RemoveAll(t, PhraseMatcher(p))
  {
    LiteralMatch(p, p + t);
    assert p <= p + t;
    assert (p + t)[|p|..] == t;
  }

  /** remove_unwanted_phrases_from_end: sort the patterns, remove each one everywhere, then tidy the whitespace. */
  method RemoveUnwantedPhrasesFromEnd(text: string) returns (r: string)
    ensures r == NormalizeSpace(Scan.RemoveEach(PhraseMatchers(SortByLength(UnwantedPhrases)), text))
    ensures Tidy(r)
  {
    var patterns := SortByLength(UnwantedPhrases);
    r := RemovePhrases(patterns, text);
    r := NormalizeSpace(r);
  }

  /** The substitution loop over any pattern list, in the order given. */
  method RemovePhrases(patterns: seq<string>, text: string) returns (r: string)
    ensures r == Scan.RemoveEach(PhraseMatchers(patterns), text)
  {
    r := text;
    for i := 0 to |patterns|
      invariant r == Scan.RemoveEach(PhraseMatchers(patterns[..i]), text)
    {
      r := Scan.RemoveAll(r, PhraseMatcher(patterns[i]));
      assert PhraseMatchers(patterns[..i + 1])[..i] == PhraseMatchers(patterns[..i]);
    }
    assert patterns[..|patterns|] == patterns;
  }
}

/**
 * remove_duplicates_and_keep_last: near-duplicate removal over a list of texts.
 * The similarity test `fuzz.ratio(text, seen) > threshold` is a parameter; the
 * set of seen titles is iterated in an order the model leaves open.
 */
module NearDedup {
  import opened Wrappers
  import opened Strings

  type Similar = (string, string) -> bool

  /**
   * What the inner loop may do at position i: find no similar seen title (None),
   * or stop at some seen title similar to texts[i]. Which one it stops at when
   * several are similar depends on the set's iteration order.
   */
  ghost predicate ChoiceOk(texts: seq<string>, similar: Similar, i: nat, c: Option<string>)
    requires i < |texts|
  {
    match c
    case None => forall j :: 0 <= j < i ==> !similar(texts[i], texts[j])
    case Some(k) => similar(texts[i], k) && exists j :: 0 <= j < i && texts[j] == k
  }

  /** One possible choice for each of the first |cs| positions. */
  ghost predicate Choices(texts: seq<string>, similar: Similar, cs: seq<Option<string>>) {
    |cs| <= |texts| && forall q :: 0 <= q < |cs| ==> ChoiceOk(texts, similar, q, cs[q])
  }

  /** The dictionary the first loop builds from its choices: `last_seen_index[seen] = i` at each Some. */
  function Record(cs: seq<Option<string>>): (m: map<string, nat>)
    ensures forall k :: k in m ==> m[k] < |cs|
  {
    if cs == [] then map[]
    else
      var m := Record(cs[..|cs| - 1]);
      match cs[|cs| - 1]
      case None => m
      case Some(k) => m[k := |cs| - 1]
  }

  /**
   * A title is a key exactly when it was chosen somewhere, and it maps to the
   * last position that chose it.
   */
  lemma {:induction false} RecordChosen(cs: seq<Option<string>>)
    ensures forall k :: k in Record(cs) <==> exists i :: 0 <= i < |cs| && cs[i] == Some(k)
    ensures forall k :: k in Record(cs) ==> cs[Record(cs)[k]] == Some(k)
    ensures forall k, i :: k in Record(cs) && Record(cs)[k] < i < |cs| ==> cs[i] != Some(k)
  {
    if cs != [] {
      var n := |cs| - 1;
      var init := cs[..n];
      RecordChosen(init);
      var m0, m := Record(init), Record(cs);
      assert m == if cs[n].Some? then m0[cs[n].value := n] else m0;
      forall k ensures k in m <==> exists i :: 0 <= i < |cs| && cs[i] == Some(k) {
        if k in m0 {
          var i :| 0 <= i < |init| && init[i] == Some(k);
          assert cs[i] == Some(k);
        }
        if exists i :: 0 <= i < |cs| && cs[i] == Some(k) {
          var i :| 0 <= i < |cs| && cs[i] == Some(k);
          if i < n { assert init[i] == Some(k); }
        }
      }
      forall k | k in m ensures cs[m[k]] == Some(k) {
        if cs[n] != Some(k) { assert cs[m0[k]] == init[m0[k]]; }
      }
      forall k, i | k in m && m[k] < i < |cs| ensures cs[i] != Some(k) {
        if cs[n] != Some(k) && i < n { assert cs[i] == init[i]; }
      }
    }
  }

  /** An entry k -> v: the text at v is similar to k, and k occurs before v. */
  ghost predicate Entry(texts: seq<string>, similar: Similar, k: string, v: nat) {
    && v < |texts|
    && similar(texts[v], k)
    && exists j :: 0 <= j < v && texts[j] == k
  }

  /** Every recorded pair is an entry. */
  ghost predicate Sound(texts: seq<string>, similar: Similar, lastSeen: map<string, nat>) {
    forall k :: k in lastSeen ==> Entry(texts, similar, k, lastSeen[k])
  }

  /** Some earlier text similar to texts[i] is a key whose position reaches i or beyond. */
  ghost predicate Reached(texts: seq<string>, similar: Similar, lastSeen: map<string, nat>, i: nat)
    requires i < |texts|
  {
    exists j :: 0 <= j < i && texts[j] in lastSeen && lastSeen[texts[j]] >= i && similar(texts[i], texts[j])
  }

  /** Every text that is similar to an earlier one is reached by an earlier similar key. */
  ghost predicate Complete(texts: seq<string>, similar: Similar, lastSeen: map<string, nat>) {
    forall i, j :: 0 <= j < i < |texts| && similar(texts[i], texts[j]) ==> Reached(texts, similar, lastSeen, i)
  }

  ghost predicate FirstPass(texts: seq<string>, similar: Similar, lastSeen: map<string, nat>) {
    Sound(texts, similar, lastSeen) && Complete(texts, similar, lastSeen)
  }

  /** Whatever the iteration order, the dictionary is sound and complete. */
  lemma RecordFirstPass(texts: seq<string>, similar: Similar, cs: seq<Option<string>>)
    requires Choices(texts, similar, cs) && |cs| == |texts|
    ensures FirstPass(texts, similar, Record(cs))
  {
    var m := Record(cs);
    RecordChosen(cs);
    forall k | k in m ensures Entry(texts, similar, k, m[k]) {
      assert ChoiceOk(texts, similar, m[k], cs[m[k]]);
    }
    forall i, j | 0 <= j < i < |texts| && similar(texts[i], texts[j])
      ensures Reached(texts, similar, m, i)
    {
      assert ChoiceOk(texts, similar, i, cs[i]);
      var k := cs[i].value;
      var j' :| 0 <= j' < i && texts[j'] == k;
      assert k in m;
      assert m[k] >= i;
    }
  }

  /**
   * The first loop: for each text, look through the titles seen so far; the first
   * similar one found gets this position recorded, and the text joins the seen titles.
   */
  method LastSeenIndex(texts: seq<string>, similar: Similar) returns (lastSeen: map<string, nat>)
    ensures exists cs :: Choices(texts, similar, cs) && |cs| == |texts| && lastSeen == Record(cs)
  {
    lastSeen := map[];
    var seenTitles: set<string> := {};
    ghost var chosen: seq<Option<string>> := [];
    for i := 0 to |texts|
      invariant seenTitles == set j | 0 <= j < i :: texts[j]
      invariant |chosen| == i && Choices(texts, similar, chosen)
      invariant lastSeen == Record(chosen)
    {
      var text := texts[i];
      var candidates := seenTitles;
      var found := false;
      ghost var pick: Option<string> := None;
      while candidates != {} && !found
        invariant candidates <= seenTitles
        invariant found <==> pick.Some?
        invariant pick.Some? ==> ChoiceOk(texts, similar, i, pick) && lastSeen == Record(chosen)[pick.value := i]
        invariant pick.None? ==> lastSeen == Record(chosen)
        invariant pick.None? ==> forall s :: s in seenTitles - candidates ==> !similar(text, s)
        decreases |candidates|, !found
      {
        var seen :| seen in candidates;
        if similar(text, seen) {
          lastSeen := lastSeen[seen := i];
          found := true;
          pick := Some(seen);
        } else {
          candidates := candidates - {seen};
        }
      }
      if !found {
        forall j | 0 <= j < i ensures !similar(text, texts[j]) {
          assert texts[j] in seenTitles;
        }
      }
      assert ChoiceOk(texts, similar, i, pick);
      assert (chosen + [pick])[..i] == chosen;
      chosen := chosen + [pick];
      seenTitles := seenTitles + {text};
    }
  }

  /**
   * The second loop from position `i`, with `skip` the skip_to_index so far:
   * positions up to `skip` are dropped; a kept text with an entry moves `skip` to it.
   * It only drops texts, and a text past the skip point is kept.
   */
  function Walk(texts: seq<string>, lastSeen: map<string, nat>, i: nat, skip: int): (r: seq<string>)
    requires i <= |texts|
    ensures |r| <= |texts| - i
    ensures skip < i < |texts| ==> r != [] && r[0] == texts[i]
    decreases |texts| - i
  {
    if i == |texts| then []
    else if i <= skip then Walk(texts, lastSeen, i + 1, skip)
    else
      var next := if texts[i] in lastSeen then lastSeen[texts[i]] else skip;
      [texts[i]] + Walk(texts, lastSeen, i + 1, next)
  }

  /** The walk only drops texts: what it keeps is a sub-sequence of what is left. */
  lemma {:induction false} WalkSubseq(texts: seq<string>, lastSeen: map<string, nat>, i: nat, skip: int)
    requires i <= |texts|
    ensures IsSubseq(Walk(texts, lastSeen, i, skip), texts[i..])
    decreases |texts| - i
  {
    if i == |texts| {
    } else if i <= skip {
      WalkSubseq(texts, lastSeen, i + 1, skip);
      assert texts[i..][1..] == texts[i + 1..];
    } else {
      var next := if texts[i] in lastSeen then lastSeen[texts[i]] else skip;
      WalkSubseq(texts, lastSeen, i + 1, next);
      assert texts[i..][1..] == texts[i + 1..];
      SubseqCons(texts[i], Walk(texts, lastSeen, i + 1, next), texts[i + 1..]);
      assert [texts[i]] + texts[i + 1..] == texts[i..];
    }
  }

  /** The second loop over the whole list: a sub-sequence that always keeps the first text. */
  function KeepUnskipped(texts: seq<string>, lastSeen: map<string, nat>): (r: seq<string>)
    ensures IsSubseq(r, texts)
    ensures texts != [] ==> r != [] && r[0] == texts[0]
  {
    WalkSubseq(texts, lastSeen, 0, -1);
    assert texts[0..] == texts;
    Walk(texts, lastSeen, 0, -1)
  }

  /** The second loop, appending every text it does not skip. */
  method SkipPass(texts: seq<string>, lastSeen: map<string, nat>) returns (unique: seq<string>)
    ensures unique == KeepUnskipped(texts, lastSeen)
  {
    unique := [];
    var skipToIndex := -1;
    for i := 0 to |texts|
      invariant unique + Walk(texts, lastSeen, i, skipToIndex) == KeepUnskipped(texts, lastSeen)
    {
      var text := texts[i];
      if i <= skipToIndex {
        continue;
      }
      ghost var before := skipToIndex;
      if text in lastSeen {
        skipToIndex := lastSeen[text];
      }
      assert Walk(texts, lastSeen, i, before) == [text] + Walk(texts, lastSeen, i + 1, skipToIndex);
      Regroup3(unique, [text], Walk(texts, lastSeen, i + 1, skipToIndex));
      unique := unique + [text];
    }
  }

  /** With no entry for any text, nothing past the skip point is dropped. */
  lemma {:induction false} WalkKeepsAll(texts: seq<string>, lastSeen: map<string, nat>, i: nat, skip: int)
    requires i <= |texts| && skip < i
    requires forall j :: i <= j < |texts| ==> texts[j] !in lastSeen
    ensures Walk(texts, lastSeen, i, skip) == texts[i..]
    decreases |texts| - i
  {
    if i < |texts| {
      WalkKeepsAll(texts, lastSeen, i + 1, skip);
      assert texts[i..] == [texts[i]] + texts[i + 1..];
    }
  }

  /** An empty first pass is exactly the case where no text is similar to an earlier one. */
  lemma NoSimilarPairEmpty(texts: seq<string>, similar: Similar, lastSeen: map<string, nat>)
    requires FirstPass(texts, similar, lastSeen)
    ensures lastSeen == map[] <==> forall i, j :: 0 <= j < i < |texts| ==> !similar(texts[i], texts[j])
  {
    if lastSeen != map[] {
      var k :| k in lastSeen;
      assert Entry(texts, similar, k, lastSeen[k]);
      var j :| 0 <= j < lastSeen[k] && texts[j] == k;
      assert similar(texts[lastSeen[k]], texts[j]);
    } else {
      forall i, j | 0 <= j < i < |texts| ensures !similar(texts[i], texts[j]) {
        assert !Reached(texts, similar, lastSeen, i);
      }
    }
  }

  /**
   * remove_duplicates_and_keep_last: the kept texts are the second pass over the
   * dictionary of some iteration order of the first; they are a sub-sequence of the
   * input, the first text is always kept, and a list without similar pairs comes back whole.
   */
  method RemoveDuplicatesAndKeepLast(texts: seq<string>, similar: Similar) returns (unique: seq<string>)
    ensures exists cs :: Choices(texts, similar, cs) && |cs| == |texts| && unique == KeepUnskipped(texts, Record(cs))
    ensures IsSubseq(unique, texts)
    ensures texts != [] ==> unique != [] && unique[0] == texts[0]
    ensures (forall i, j :: 0 <= j < i < |texts| ==> !similar(texts[i], texts[j])) ==> unique == texts
  {
    var lastSeen := LastSeenIndex(texts, similar);
    unique := SkipPass(texts, lastSeen);
    ghost var cs :| Choices(texts, similar, cs) && |cs| == |texts| && lastSeen == Record(cs);
    RecordFirstPass(texts, similar, cs);
    NoSimilarPairEmpty(texts, similar, lastSeen);
    if forall i, j :: 0 <= j < i < |texts| ==> !similar(texts[i], texts[j]) {
      WalkKeepsAll(texts, lastSeen, 0, -1);
      assert texts[0..] == texts;
    }
  }

  /**
   * When a single pair (texts[p], a) is similar, the dictionary is exactly a -> p
   * if a occurs before p, and empty otherwise.
   */
  lemma OnlyEntry(texts: seq<string>, similar: Similar, cs: seq<Option<string>>, a: string, p: nat)
    requires p < |texts|
    requires forall x, y :: similar(x, y) <==> x == texts[p] && y == a
    requires forall q :: 0 <= q < |texts| && q != p ==> texts[q] != texts[p]
    requires Choices(texts, similar, cs) && |cs| == |texts|
    ensures (exists j :: 0 <= j < p && texts[j] == a) ==> Record(cs) == map[a := p]
    ensures (forall j :: 0 <= j < p ==> texts[j] != a) ==> Record(cs) == map[]
  {
    var m := Record(cs);
    RecordChosen(cs);
    forall q | 0 <= q < |cs| && q != p ensures cs[q] == None {
      assert ChoiceOk(texts, similar, q, cs[q]);
    }
    assert ChoiceOk(texts, similar, p, cs[p]);
    if exists j :: 0 <= j < p && texts[j] == a {
      assert cs[p] == Some(a);
      assert a in m;
      assert m.Keys == {a};
    } else {
      assert cs[p] == None;
      assert m.Keys == {};
    }
  }

  /**
   * [a, a', b] where only a' is similar to a: the first pass can only record a -> 1,
   * so a' is dropped and b is kept: the earlier text survives, not the later one.
   */
  lemma KeepsEarlierOfPair(a: string, a2: string, b: string, similar: Similar, cs: seq<Option<string>>)
    requires a != a2 && a != b && a2 != b
    requires forall x, y :: similar(x, y) <==> x == a2 && y == a
    requires Choices([a, a2, b], similar, cs) && |cs| == 3
    ensures KeepUnskipped([a, a2, b], Record(cs)) == [a, b]
  {
    var texts := [a, a2, b];
    OnlyEntry(texts, similar, cs, a, 1);
    assert texts[0] == a;
    var lastSeen := Record(cs);
    assert lastSeen == map[a := 1];
    assert Walk(texts, lastSeen, 3, 1) == [];
    assert Walk(texts, lastSeen, 2, 1) == [b];
    assert Walk(texts, lastSeen, 1, 1) == [b];
  }

  /**
   * [a, b, a'] where only a' is similar to a: the entry a -> 2 makes the second pass
   * jump over b as well, although b resembles nothing.
   */
  lemma SkipsUnrelatedText(a: string, b: string, a2: string, similar: Similar, cs: seq<Option<string>>)
    requires a != a2 && a != b && a2 != b
    requires forall x, y :: similar(x, y) <==> x == a2 && y == a
    requires Choices([a, b, a2], similar, cs) && |cs| == 3
    ensures KeepUnskipped([a, b, a2], Record(cs)) == [a]
  {
    var texts := [a, b, a2];
    OnlyEntry(texts, similar, cs, a, 2);
    assert texts[0] == a;
    var lastSeen := Record(cs);
    assert lastSeen == map[a := 2];
    assert Walk(texts, lastSeen, 3, 2) == [];
    assert Walk(texts, lastSeen, 2, 2) == [];
    assert Walk(texts, lastSeen, 1, 2) == [];
  }

  /**
   * Three mutually similar texts [a, b, c]: b can only be matched to a, and c to a
   * or to b, so the result is [a] or [a, c] and nothing else.
   */
  lemma ThreeSimilarTexts(a: string, b: string, c: string, similar: Similar, cs: seq<Option<string>>)
    requires a != b && b != c && a != c
    requires forall x, y :: similar(x, y) <==> x != y && (x == a || x == b || x == c) && (y == a || y == b || y == c)
    requires Choices([a, b, c], similar, cs) && |cs| == 3
    ensures KeepUnskipped([a, b, c], Record(cs)) == [a] || KeepUnskipped([a, b, c], Record(cs)) == [a, c]
  {
    var texts := [a, b, c];
    assert ChoiceOk(texts, similar, 0, cs[0]);
    assert ChoiceOk(texts, similar, 1, cs[1]);
    assert ChoiceOk(texts, similar, 2, cs[2]);
    assert similar(b, a) && similar(c, a);
    assert cs[0] == None;
    assert cs[1] == Some(a);
    if cs[2] == Some(a) {
      ThreeSimilarKeepsFirst(a, b, c, cs);
    } else {
      assert cs[2] == Some(b);
      ThreeSimilarKeepsFirstAndLast(a, b, c, cs);
    }
  }

  lemma ThreeSimilarKeepsFirst(a: string, b: string, c: string, cs: seq<Option<string>>)
    requires a != b && b != c && a != c
    requires cs == [None, Some(a), Some(a)]
    ensures KeepUnskipped([a, b, c], Record(cs)) == [a]
  {
    var texts := [a, b, c];
    var m := Record(cs);
    RecordChosen(cs);
    assert cs[1] == Some(a) && cs[2] == Some(a);
    forall k | k in m ensures k == a {
      var i :| 0 <= i < |cs| && cs[i] == Some(k);
    }
    assert m.Keys == {a} && m[a] == 2;
    assert Walk(texts, m, 1, 2) == [];
  }

  lemma ThreeSimilarKeepsFirstAndLast(a: string, b: string, c: string, cs: seq<Option<string>>)
    requires a != b && b != c && a != c
    requires cs == [None, Some(a), Some(b)]
    ensures KeepUnskipped([a, b, c], Record(cs)) == [a, c]
  {
    var texts := [a, b, c];
    var m := Record(cs);
    RecordChosen(cs);
    assert cs[1] == Some(a) && cs[2] == Some(b);
    forall k | k in m ensures k == a || k == b {
      var i :| 0 <= i < |cs| && cs[i] == Some(k);
    }
    assert m.Keys == {a, b} && m[a] == 1 && m[b] == 2;
    assert Walk(texts, m, 3, 1) == [];
    assert Walk(texts, m, 2, 1) == [c];
    assert Walk(texts, m, 1, 1) == [c];
  }
}

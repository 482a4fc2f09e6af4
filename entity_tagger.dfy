/**
 * mark_proper_nouns: the morphological analyser is outside the model; its
 * output, a sequence of tokens with the first two part-of-speech fields, is the input.
 */
module EntityTagger {

  datatype Token = Token(surface: string, pos0: string, pos1: string)

  /** part_of_speech()[0] == '名詞' and part_of_speech()[1] == '固有名詞' */
  predicate IsProperNoun(t: Token) {
    t.pos0 == "名詞" && t.pos1 == "固有名詞"
  }

  const OpenTag: string := "<NE>"
  const CloseTag: string := "</NE>"

  /** What one token contributes to the marked text. */
  function Render(t: Token): string {
    if IsProperNoun(t) then OpenTag + t.surface + CloseTag else t.surface
  }

  /** The marked text of a token sequence: each token rendered, in token order. */
  function Marked(tokens: seq<Token>): (r: string)
    ensures |r| == SurfaceLength(tokens) + 9 * ProperNounCount(tokens)
  {
    if tokens == [] then [] else Render(tokens[0]) + Marked(tokens[1..])
  }

  /** Total length of the surfaces. */
  function SurfaceLength(tokens: seq<Token>): nat {
    if tokens == [] then 0 else |tokens[0].surface| + SurfaceLength(tokens[1..])
  }

  /** Number of proper-noun tokens. */
  function ProperNounCount(tokens: seq<Token>): nat {
    if tokens == [] then 0 else (if IsProperNoun(tokens[0]) then 1 else 0) + ProperNounCount(tokens[1..])
  }

  /** The surfaces concatenated with nothing added. */
  function Surfaces(tokens: seq<Token>): string {
    if tokens == [] then [] else tokens[0].surface + Surfaces(tokens[1..])
  }

  /** Marking distributes over splitting the token sequence. */
  lemma {:induction false} MarkedAppend(a: seq<Token>, b: seq<Token>)
    ensures Marked(a + b) == Marked(a) + Marked(b)
  {
    if a == [] {
      assert a + b == b;
    } else {
      assert (a + b)[0] == a[0] && (a + b)[1..] == a[1..] + b;
      MarkedAppend(a[1..], b);
    }
  }

  /** With no proper noun among the tokens the text is just the surfaces joined. */
  lemma {:induction false} MarkedWithoutProperNouns(tokens: seq<Token>)
    requires forall k :: 0 <= k < |tokens| ==> !IsProperNoun(tokens[k])
    ensures Marked(tokens) == Surfaces(tokens)
  {
    if tokens != [] {
      MarkedWithoutProperNouns(tokens[1..]);
    }
  }

  /** A proper noun is wrapped, a common noun is not, order is kept. */
  lemma MarkedExample(name: string, word: string)
    ensures Marked([Token(name, "名詞", "固有名詞"), Token(word, "名詞", "普通名詞")])
         == "<NE>" + name + "</NE>" + word
  {
    var ts := [Token(name, "名詞", "固有名詞"), Token(word, "名詞", "普通名詞")];
    assert ts[1..][1..] == [];
    assert "固有名詞" != "普通名詞" by { assert "固有名詞"[0] != "普通名詞"[0]; }
    assert Marked(ts[1..]) == word + [];
    assert Marked(ts) == ("<NE>" + name + "</NE>") + (word + []);
  }

  /** Appending the pieces one by one is appending the token's rendering. */
  lemma AppendRendered(m: string, t: Token)
    ensures Marked([t]) == Render(t)
    ensures m + Render(t) == if IsProperNoun(t) then m + "<NE>" + t.surface + "</NE>" else m + t.surface
  {
    assert [t][1..] == [];
  }

  /** mark_proper_nouns: append each token's rendering to the accumulated text. */
  method MarkProperNouns(tokens: seq<Token>) returns (marked: string)
    ensures marked == Marked(tokens)
  {
    marked := "";
    for i := 0 to |tokens|
      invariant marked == Marked(tokens[..i])
    {
      var token := tokens[i];
      if token.pos0 == "名詞" && token.pos1 == "固有名詞" {
        marked := marked + "<NE>" + token.surface + "</NE>";
      } else {
        marked := marked + token.surface;
      }
      assert tokens[..i + 1] == tokens[..i] + [token];
      MarkedAppend(tokens[..i], [token]);
      AppendRendered(Marked(tokens[..i]), token);
    }
    assert tokens[..|tokens|] == tokens;
  }
}

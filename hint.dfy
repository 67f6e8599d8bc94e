/**
 * The hint shown above the canvas. The guesser sees `getHint(word, elapsed)`:
 * one letter per character of the secret word, spaced apart, where the first
 * `floor(elapsed / 10)` letters are shown and the rest are placeholders. The
 * drawer sees the whole word, spaced apart the same way.
 */
module Hint {

  /** Seconds of play that reveal one more letter. */
  const SecondsPerLetter: nat := 10

  const Placeholder: char := '_'
  const Separator: char := ' '

  /** `Math.floor(elapsed / 10)`: how many leading letters the hint may show. */
  function LettersToReveal(elapsed: nat): nat {
    elapsed / SecondsPerLetter
  }

  /** `word.split('').map((char, index) => index < k ? char : '_')`. */
  function Mask(word: string, k: nat): (tokens: seq<char>)
    ensures |tokens| == |word|
    ensures forall i :: 0 <= i < |word| ==>
              tokens[i] == if i < k then word[i] else Placeholder
  {
    seq(|word|, i requires 0 <= i < |word| => if i < k then word[i] else Placeholder)
  }

  /** `tokens.join(' ')` for one-character tokens. */
  function Spaced(tokens: seq<char>): string
    decreases |tokens|
  {
    if |tokens| <= 1 then tokens else [tokens[0], Separator] + Spaced(tokens[1..])
  }

  /** `getHint(word, elapsedTime)`. */
  function GetHint(word: string, elapsed: nat): string {
    if word == [] then [] else Spaced(Mask(word, LettersToReveal(elapsed)))
  }

  /** The drawer's view of the word: `chosenWord.split('').join(' ')`. */
  function DrawerView(word: string): string {
    Spaced(word)
  }

  function Placeholders(n: nat): (r: string)
    ensures |r| == n && forall i :: 0 <= i < n ==> r[i] == Placeholder
  {
    seq(n, _ => Placeholder)
  }

  /** Joining n one-character tokens gives 2n-1 characters: token i sits at
      index 2i and a separator at every odd index. */
  lemma {:induction false} SpacedShape(tokens: seq<char>)
    requires tokens != []
    ensures |Spaced(tokens)| == 2 * |tokens| - 1
    ensures forall i :: 0 <= i < |tokens| ==> Spaced(tokens)[2 * i] == tokens[i]
    ensures forall j :: 0 <= j < |tokens| - 1 ==> Spaced(tokens)[2 * j + 1] == Separator
  {
    if |tokens| > 1 {
      var rest := tokens[1..];
      SpacedShape(rest);
      var r := Spaced(tokens);
      assert r == [tokens[0], Separator] + Spaced(rest);
      forall i | 1 <= i < |tokens| ensures r[2 * i] == tokens[i] {
        assert r[2 * i] == Spaced(rest)[2 * (i - 1)];
      }
      forall j | 1 <= j < |tokens| - 1 ensures r[2 * j + 1] == Separator {
        assert r[2 * j + 1] == Spaced(rest)[2 * (j - 1) + 1];
      }
    }
  }

  /** Joining is one-to-one: the spaced form determines the tokens. */
  lemma SpacedInjective(a: seq<char>, b: seq<char>)
    requires Spaced(a) == Spaced(b)
    ensures a == b
  {
    if a != [] && b != [] {
      SpacedShape(a);
      SpacedShape(b);
      forall i | 0 <= i < |a| ensures a[i] == b[i] {
        assert a[i] == Spaced(a)[2 * i];
      }
    } else if a != [] {
      SpacedShape(a);
    } else if b != [] {
      SpacedShape(b);
    }
  }

  /** The hint is empty exactly for the empty word; otherwise it has 2n-1
      characters for a word of n letters. */
  lemma HintLength(word: string, elapsed: nat)
    ensures GetHint(word, elapsed) == [] <==> word == []
    ensures word != [] ==> |GetHint(word, elapsed)| == 2 * |word| - 1
  {
    if word != [] {
      SpacedShape(Mask(word, LettersToReveal(elapsed)));
    }
  }

  /** Position by position: letter i of the word is shown at index 2i when
      i < floor(elapsed / 10) and a placeholder is shown otherwise; every odd
      index holds the separator. */
  lemma HintAt(word: string, elapsed: nat)
    requires word != []
    ensures |GetHint(word, elapsed)| == 2 * |word| - 1
    ensures forall i :: 0 <= i < |word| ==>
              GetHint(word, elapsed)[2 * i] ==
                if i < elapsed / 10 then word[i] else Placeholder
    ensures forall j :: 0 <= j < |word| - 1 ==> GetHint(word, elapsed)[2 * j + 1] == Separator
  {
    SpacedShape(Mask(word, LettersToReveal(elapsed)));
  }

  /** The hint is the spaced form of the first min(n, floor(elapsed / 10))
      letters of the word followed by placeholders for the rest: letters are
      revealed left to right and never out of order. */
  lemma HintRevealsPrefix(word: string, elapsed: nat)
    ensures var r := if elapsed / 10 < |word| then elapsed / 10 else |word|;
            GetHint(word, elapsed) == Spaced(word[..r] + Placeholders(|word| - r))
  {
    var r := if elapsed / 10 < |word| then elapsed / 10 else |word|;
    var shown := word[..r] + Placeholders(|word| - r);
    if word != [] {
      assert Mask(word, LettersToReveal(elapsed)) == shown by {
        forall i | 0 <= i < |word|
          ensures Mask(word, LettersToReveal(elapsed))[i] == shown[i]
        {
          if i >= r { assert shown[i] == Placeholders(|word| - r)[i - r]; }
        }
      }
    }
  }

  /** During the first ten seconds nothing is revealed. */
  lemma HintNothingShownEarly(word: string, elapsed: nat)
    requires elapsed < 10
    ensures GetHint(word, elapsed) == Spaced(Placeholders(|word|))
  {
    HintRevealsPrefix(word, elapsed);
    assert word[..0] + Placeholders(|word|) == Placeholders(|word|);
  }

  /** Once ten seconds per letter have passed the guesser's hint is exactly
      what the drawer sees. */
  lemma HintFullyRevealed(word: string, elapsed: nat)
    requires elapsed >= 10 * |word|
    ensures GetHint(word, elapsed) == DrawerView(word)
  {
    HintRevealsPrefix(word, elapsed);
    assert word[..|word|] + Placeholders(0) == word;
  }

  /** As time passes the hint only gains letters: every letter shown at
      `earlier` is still shown, at the same index, at `later`. */
  lemma HintMonotone(word: string, earlier: nat, later: nat)
    requires earlier <= later
    ensures |GetHint(word, later)| == |GetHint(word, earlier)| == if word == [] then 0 else 2 * |word| - 1
    ensures forall i :: 0 <= i < |word| && i < earlier / 10 ==>
              GetHint(word, later)[2 * i] == GetHint(word, earlier)[2 * i] == word[i]
  {
    HintLength(word, earlier);
    HintLength(word, later);
    if word != [] {
      HintAt(word, earlier);
      HintAt(word, later);
      assert earlier / 10 <= later / 10;
    }
  }

  /** The guesser's view a quarter of a minute into a round on "apple". */
  lemma HintExample()
    ensures GetHint("apple", 25) == "a p _ _ _"
  {
    HintRevealsPrefix("apple", 25);
    assert "apple"[..2] + Placeholders(3) == "ap___";
  }
}

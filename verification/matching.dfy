/** Fuzzy matching of a recipe ingredient against the pantry by token overlap
    (`tokenize`, `ingredient_matches`). */
module Matching {
  import opened Normalize

  /** The fraction of the smaller token set that must be shared. */
  const Threshold: real := 0.6

  /** `tokenize`: the set of whitespace-separated words of a phrase. */
  function Tokenize(phrase: string): (r: set<string>)
    ensures forall w | w in r :: IsToken(w)
    ensures [] !in r
  {
    set w | w in Words(phrase)
  }

  function Min(a: nat, b: nat): (r: nat)
    ensures r <= a && r <= b && (r == a || r == b)
  {
    if a <= b then a else b
  }

  /** The test `ingredient_matches` applies to one pantry item: the item has
      tokens, shares at least one with the ingredient, and the shared tokens make
      up at least 0.6 of the smaller of the two token sets. */
  predicate Covers(ingredientTokens: set<string>, itemTokens: set<string>) {
    && itemTokens != {}
    && |ingredientTokens * itemTokens| > 0
    && ingredientTokens != {}
    && (|ingredientTokens * itemTokens| as real)
         / (Min(|ingredientTokens|, |itemTokens|) as real) >= Threshold
  }

  /** `ingredient_matches`: the ingredient has tokens and some pantry item covers it. */
  predicate Matches(ingredient: string, pantry: set<string>) {
    && Tokenize(ingredient) != {}
    && exists item | item in pantry :: Covers(Tokenize(ingredient), Tokenize(item))
  }

  /** The threshold test in whole numbers: overlap / smaller >= 3/5 exactly when
      5 * overlap >= 3 * smaller. */
  predicate CoversByCount(ingredientTokens: set<string>, itemTokens: set<string>) {
    var overlap := |ingredientTokens * itemTokens|;
    itemTokens != {} && ingredientTokens != {} && overlap > 0
    && 5 * overlap >= 3 * Min(|ingredientTokens|, |itemTokens|)
  }

  /** The real-valued comparison of the source against whole numbers. */
  lemma RatioAtLeastThreshold(overlap: nat, smaller: nat)
    requires smaller > 0
    ensures (overlap as real) / (smaller as real) >= Threshold <==> 5 * overlap >= 3 * smaller
  {
    var o, m := overlap as real, smaller as real;
    var q := o / m;
    assert q * m == o;
    assert 5 * overlap >= 3 * smaller <==> o - 0.6 * m >= 0.0;
    assert o - 0.6 * m == (q - 0.6) * m;
    PositiveFactor(q - 0.6, m);
  }

  /** With a positive factor, the sign of a product is the sign of the other factor. */
  lemma PositiveFactor(x: real, m: real)
    requires m > 0.0
    ensures x * m >= 0.0 <==> x >= 0.0
  {
    if x < 0.0 {
      assert -x * m > 0.0;
    }
  }

  lemma CoversIffByCount(a: set<string>, b: set<string>)
    ensures Covers(a, b) <==> CoversByCount(a, b)
  {
    if a != {} && b != {} {
      RatioAtLeastThreshold(|a * b|, Min(|a|, |b|));
    }
  }

  /** `ingredient_matches`, iterating over the pantry and stopping at the first
      item that covers the ingredient. */
  method IngredientMatches(ingredient: string, pantry: set<string>) returns (found: bool)
    ensures Tokenize(ingredient) == {} ==> !found
    ensures found <==>
              Tokenize(ingredient) != {} &&
              exists item | item in pantry :: CoversByCount(Tokenize(ingredient), Tokenize(item))
    ensures found <==> Matches(ingredient, pantry)
  {
    var ingredientTokens := Tokenize(ingredient);
    if ingredientTokens == {} {
      return false;
    }
    var remaining := pantry;
    while remaining != {}
      invariant remaining <= pantry
      invariant forall item | item in pantry && item !in remaining ::
                  !CoversByCount(ingredientTokens, Tokenize(item))
      decreases remaining
    {
      var item :| item in remaining;
      remaining := remaining - {item};
      var itemTokens := Tokenize(item);
      CoversIffByCount(ingredientTokens, itemTokens);
      if itemTokens == {} {
        continue;
      }
      var overlap := |ingredientTokens * itemTokens|;
      if overlap == 0 {
        continue;
      }
      var coverage := (overlap as real) / (Min(|ingredientTokens|, |itemTokens|) as real);
      if coverage >= Threshold {
        return true;
      }
    }
    forall item | item in pantry
      ensures !Covers(ingredientTokens, Tokenize(item))
    {
      CoversIffByCount(ingredientTokens, Tokenize(item));
    }
    return false;
  }
  // ---------------------------------------------------------------------------
  // Properties of the match
  // ---------------------------------------------------------------------------

  /** A phrase has no tokens exactly when it is all whitespace. */
  lemma TokenizeEmptyIff(phrase: string)
    ensures Tokenize(phrase) == {} <==> forall k | 0 <= k < |phrase| :: IsSpace(phrase[k])
  {
    WordsFromEmptyIff(phrase, []);
    var ws := Words(phrase);
    if ws != [] {
      assert ws[0] in Tokenize(phrase);
    }
  }

  /** Among canonical phrases only the empty one has no tokens. */
  lemma CanonicalTokensEmptyIff(phrase: string)
    requires IsCanonical(phrase)
    ensures Tokenize(phrase) == {} <==> phrase == []
  {
    TokenizeEmptyIff(phrase);
    if phrase != [] {
      assert !IsSpace(phrase[0]);
    }
  }

  /** The tokens of a joined phrase are the words joined. */
  lemma TokenizeJoin(ws: seq<string>)
    requires forall j | 0 <= j < |ws| :: IsToken(ws[j])
    ensures Tokenize(JoinWords(ws)) == set w | w in ws
  {
    WordsOfJoin(ws);
  }

  /** The test does not depend on which side is the ingredient. */
  lemma CoversSymmetric(a: set<string>, b: set<string>)
    ensures Covers(a, b) <==> Covers(b, a)
  {
    assert a * b == b * a;
  }

  /** Every non-empty token set covers itself. */
  lemma CoversSelf(a: set<string>)
    requires a != {}
    ensures Covers(a, a)
  {
    assert a * a == a;
    CoversIffByCount(a, a);
  }

  /** Adding items to the pantry never loses a match. */
  lemma MatchesMonotone(ingredient: string, pantry: set<string>, larger: set<string>)
    requires pantry <= larger
    requires Matches(ingredient, pantry)
    ensures Matches(ingredient, larger)
  {
    var item :| item in pantry && Covers(Tokenize(ingredient), Tokenize(item));
    assert item in larger;
  }

  /** An ingredient with tokens that is itself in the pantry matches. */
  lemma MatchesWhenPresent(ingredient: string, pantry: set<string>)
    requires ingredient in pantry
    requires Tokenize(ingredient) != {}
    ensures Matches(ingredient, pantry)
  {
    CoversSelf(Tokenize(ingredient));
  }

  lemma TokensOfTwoWords(x: string, y: string)
    requires IsToken(x) && IsToken(y)
    ensures Tokenize(x + " " + y) == {x, y}
  {
    TokenizeJoin([x, y]);
    assert JoinWords([x, y]) == x + " " + y;
  }

  lemma TokensOfOneWord(x: string)
    requires IsToken(x)
    ensures Tokenize(x) == {x}
  {
    TokenizeJoin([x]);
  }

  /** "salt" in the pantry satisfies "sea salt": one shared token out of the
      smaller set's one. */
  lemma SaltMatchesSeaSalt()
    ensures Matches("sea salt", {"salt"})
  {
    TokensOfSeaSalt();
    TokensOfOneWord("salt");
    var a, b: set<string> := {"sea", "salt"}, {"salt"};
    assert a * b == {"salt"};
    CoversIffByCount(a, b);
    assert Covers(Tokenize("sea salt"), Tokenize("salt"));
  }

  lemma TokensOfSeaSalt()
    ensures Tokenize("sea salt") == {"sea", "salt"}
  {
    TokensOfTwoWords("sea", "salt");
    assert "sea" + " " + "salt" == "sea salt";
  }

  /** "vegetable oil" does not satisfy "olive oil": one shared token out of two
      is below the threshold. */
  lemma OliveOilNotVegetableOil()
    ensures !Matches("olive oil", {"vegetable oil"})
  {
    TokensOfOliveOil();
    TokensOfVegetableOil();
    OneOfTwoIsTooFew();
    forall item | item in {"vegetable oil"}
      ensures !Covers(Tokenize("olive oil"), Tokenize(item))
    {
      assert item == "vegetable oil";
    }
  }

  lemma TokensOfOliveOil()
    ensures Tokenize("olive oil") == {"olive", "oil"}
  {
    TokensOfTwoWords("olive", "oil");
    assert "olive" + " " + "oil" == "olive oil";
  }

  lemma TokensOfVegetableOil()
    ensures Tokenize("vegetable oil") == {"vegetable", "oil"}
  {
    TokensOfTwoWords("vegetable", "oil");
    assert "vegetable" + " " + "oil" == "vegetable oil";
  }

  lemma OneOfTwoIsTooFew()
    ensures !Covers({"olive", "oil"}, {"vegetable", "oil"})
  {
    var a, b: set<string> := {"olive", "oil"}, {"vegetable", "oil"};
    assert a * b == {"oil"};
    assert |a| == 2 && |b| == 2 && |a * b| == 1;
    CoversIffByCount(a, b);
  }

  /** An overlap of exactly 0.6 is enough: three shared tokens out of five. */
  lemma ThresholdIsInclusive()
    ensures Covers({"boneless", "skinless", "chicken", "breast", "fillets"},
                   {"chicken", "breast", "fillets", "frozen", "pack"})
  {
    var a := {"boneless", "skinless", "chicken", "breast", "fillets"};
    var b := {"chicken", "breast", "fillets", "frozen", "pack"};
    assert a * b == {"chicken", "breast", "fillets"};
    assert |a| == 5 && |b| == 5 && |a * b| == 3;
    CoversIffByCount(a, b);
  }
}

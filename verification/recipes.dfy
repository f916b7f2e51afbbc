/** The recipe record and its per-recipe scores: ingredient coverage, macro
    ratios, balance and the balance gate, and the missing-ingredient breakdown. */
module Recipes {
  import opened Normalize
  import opened Matching
  import opened Selection

  /** Grams of each macronutrient; a macro the entry leaves out reads 0. Fiber is
      carried for display only and takes no part in any score. */
  datatype Macros = Macros(carbs: real, protein: real, fat: real, fiber: real)

  /** A recipe of the collection, with every optional field already defaulted. */
  datatype Recipe = Recipe(
    name: string,
    servings: int,
    coreIngredients: seq<string>,
    supportingIngredients: seq<string>,
    instructions: seq<string>,
    macros: Macros,
    tags: seq<string>,
    notes: string)

  /** The share of each macro in the total energy. */
  datatype Ratios = Ratios(carbs: real, protein: real, fat: real)

  /** Energy per gram (`CAL_FACTORS`). */
  const CarbsFactor: real := 4.0
  const ProteinFactor: real := 4.0
  const FatFactor: real := 9.0

  /** The wanted energy split, 40/30/30 (`TARGET_RATIOS`). */
  const Target: Ratios := Ratios(0.4, 0.3, 0.3)

  /** How far each share may stray from its target (`RATIO_TOLERANCE`). */
  const Tolerance: real := 0.1

  /** Weights of the two lists in the coverage score. */
  const CoreWeight: real := 0.75
  const SupportingWeight: real := 0.25

  // ---------------------------------------------------------------------------
  // Loading
  // ---------------------------------------------------------------------------

  /** A list of ingredient phrases as the recipe holds them: every one canonical
      and none empty. */
  predicate IsPhraseList(xs: seq<string>) {
    forall j | 0 <= j < |xs| :: xs[j] != [] && IsCanonical(xs[j])
  }

  /** Every item normalised, in order (the `normalized` list of `norm_list`). */
  function NormalizeEach(items: seq<string>): (r: seq<string>)
    ensures |r| == |items|
    ensures forall j | 0 <= j < |r| :: r[j] == NormalizeToken(items[j])
  {
    seq(|items|, j requires 0 <= j < |items| => NormalizeToken(items[j]))
  }

  /** `norm_list`: normalise each phrase and drop the ones that come out empty. */
  function NormList(items: seq<string>): (r: seq<string>)
    ensures IsPhraseList(r)
    ensures |r| <= |items|
  {
    var normalized := NormalizeEach(items);
    var r := Filter(normalized, p => p != []);
    FilterCounts(normalized, p => p != []);
    assert forall j | 0 <= j < |r| :: r[j] in normalized;
    r
  }

  /** A phrase is kept exactly when it is the non-empty normal form of an item. */
  lemma NormListMembership(items: seq<string>, p: string)
    ensures p in NormList(items) <==>
            p != [] && exists i | 0 <= i < |items| :: NormalizeToken(items[i]) == p
  {
    var normalized := NormalizeEach(items);
    FilterCounts(normalized, p => p != []);
    if p in normalized {
      var i :| 0 <= i < |normalized| && normalized[i] == p;
    }
  }

  /** Lists that are already normalised pass through NormList unchanged. */
  lemma NormListOfPhraseList(xs: seq<string>)
    requires IsPhraseList(xs)
    ensures NormList(xs) == xs
  {
    var normalized := NormalizeEach(xs);
    forall j | 0 <= j < |xs| ensures normalized[j] == xs[j] {
      CanonicalIsFixedPoint(xs[j]);
    }
    assert normalized == xs;
    FilterKeepsAll(xs, p => p != []);
  }

  /** Normalising a list twice is the same as once. */
  lemma NormListIdempotent(items: seq<string>)
    ensures NormList(NormList(items)) == NormList(items)
  {
    NormListOfPhraseList(NormList(items));
  }

  /** A recipe as loaded: both ingredient lists are phrase lists. */
  predicate IsLoaded(recipe: Recipe) {
    IsPhraseList(recipe.coreIngredients) && IsPhraseList(recipe.supportingIngredients)
  }

  /** The ingredient part of `Recipe.from_dict`: the entry's two ingredient lists
      go through NormList; every other field is kept. */
  function FromEntry(entry: Recipe): (r: Recipe)
    ensures IsLoaded(r)
    ensures r.name == entry.name && r.servings == entry.servings
    ensures r.instructions == entry.instructions && r.macros == entry.macros
    ensures r.tags == entry.tags && r.notes == entry.notes
    ensures |r.coreIngredients| <= |entry.coreIngredients|
    ensures |r.supportingIngredients| <= |entry.supportingIngredients|
  {
    entry.(coreIngredients := NormList(entry.coreIngredients),
           supportingIngredients := NormList(entry.supportingIngredients))
  }

  /** Loading a recipe that is already loaded changes nothing. */
  lemma FromEntryOfLoaded(recipe: Recipe)
    requires IsLoaded(recipe)
    ensures FromEntry(recipe) == recipe
  {
    NormListOfPhraseList(recipe.coreIngredients);
    NormListOfPhraseList(recipe.supportingIngredients);
  }

  // ---------------------------------------------------------------------------
  // Ingredient coverage and what is missing
  // ---------------------------------------------------------------------------

  /** How many of the phrases the pantry satisfies. */
  function Hits(xs: seq<string>, pantry: set<string>): (r: nat)
    ensures r <= |xs|
  {
    if xs == [] then 0
    else (if Matches(xs[0], pantry) then 1 else 0) + Hits(xs[1..], pantry)
  }

  /** The phrases the pantry does not satisfy, in their order. */
  function MissingFrom(xs: seq<string>, pantry: set<string>): (r: seq<string>)
    ensures |r| + Hits(xs, pantry) == |xs|
    ensures IsSubsequence(r, xs)
    ensures forall x | x in r :: x in xs && !Matches(x, pantry)
    ensures forall x | x in xs && !Matches(x, pantry) :: x in r
  {
    if xs == [] then []
    else
      var rest := MissingFrom(xs[1..], pantry);
      assert forall x | x in xs :: x == xs[0] || x in xs[1..];
      if Matches(xs[0], pantry) then
        assert IsSubsequence(rest, xs) by {
          if rest != [] {
            assert rest[0] in rest;
          }
        }
        rest
      else
        [xs[0]] + rest
  }

  /** `Recipe.missing`: the core and the supporting ingredients the pantry does
      not satisfy, each list in recipe order. */
  function Missing(recipe: Recipe, pantry: set<string>): (r: (seq<string>, seq<string>))
    ensures IsSubsequence(r.0, recipe.coreIngredients)
    ensures IsSubsequence(r.1, recipe.supportingIngredients)
    ensures forall x :: x in r.0 <==> x in recipe.coreIngredients && !Matches(x, pantry)
    ensures forall x :: x in r.1 <==> x in recipe.supportingIngredients && !Matches(x, pantry)
    ensures |r.0| + Hits(recipe.coreIngredients, pantry) == |recipe.coreIngredients|
    ensures |r.1| + Hits(recipe.supportingIngredients, pantry) == |recipe.supportingIngredients|
  {
    (MissingFrom(recipe.coreIngredients, pantry), MissingFrom(recipe.supportingIngredients, pantry))
  }

  /** `hits / total`, or 0 for an empty list. */
  function Fraction(hits: nat, total: nat): (r: real)
    requires hits <= total
    ensures 0.0 <= r <= 1.0
    ensures r == 1.0 <==> total > 0 && hits == total
    ensures r == 0.0 <==> hits == 0
  {
    if total == 0 then 0.0 else
      var q := (hits as real) / (total as real);
      assert q * (total as real) == hits as real;
      FractionBounds(hits as real, total as real, q);
      q
  }

  lemma FractionBounds(h: real, t: real, q: real)
    requires 0.0 <= h <= t && t > 0.0
    requires q * t == h
    ensures 0.0 <= q <= 1.0
    ensures q == 1.0 <==> h == t
    ensures q == 0.0 <==> h == 0.0
  {
  }

  /** `Recipe.ingredient_score`: 0 without core ingredients; otherwise 0.75 of
      the share of core ingredients on hand plus 0.25 of the share of supporting
      ones (that share counting 0 when there are none). */
  function IngredientScore(recipe: Recipe, pantry: set<string>): (r: real)
    ensures 0.0 <= r <= 1.0
    ensures |recipe.coreIngredients| == 0 ==> r == 0.0
    ensures |recipe.coreIngredients| > 0 ==>
              r == CoreWeight * Fraction(Hits(recipe.coreIngredients, pantry), |recipe.coreIngredients|)
                   + SupportingWeight * Fraction(Hits(recipe.supportingIngredients, pantry),
                                                 |recipe.supportingIngredients|)
  {
    var core, supporting := recipe.coreIngredients, recipe.supportingIngredients;
    if |core| == 0 then 0.0
    else
      var coreRatio := (Hits(core, pantry) as real) / (|core| as real);
      var supportingRatio :=
        if |supporting| > 0 then (Hits(supporting, pantry) as real) / (|supporting| as real) else 0.0;
      RatioIsFraction(Hits(core, pantry), |core|);
      RatioIsFraction(Hits(supporting, pantry), |supporting|);
      coreRatio * CoreWeight + supportingRatio * SupportingWeight
  }

  /** Python's `hits / total` for a non-empty list is Fraction. */
  lemma RatioIsFraction(hits: nat, total: nat)
    requires hits <= total
    ensures total > 0 ==> (hits as real) / (total as real) == Fraction(hits, total)
  {
  }

  /** The coverage score counts what `Recipe.missing` leaves out: the share of
      each list on hand is one minus its missing share. */
  lemma IngredientScoreFromMissing(recipe: Recipe, pantry: set<string>)
    requires |recipe.coreIngredients| > 0
    ensures IngredientScore(recipe, pantry)
              == CoreWeight * Fraction(|recipe.coreIngredients| - |Missing(recipe, pantry).0|,
                                       |recipe.coreIngredients|)
                 + SupportingWeight * Fraction(|recipe.supportingIngredients| - |Missing(recipe, pantry).1|,
                                               |recipe.supportingIngredients|)
  {
    var m := Missing(recipe, pantry);
    ScoreFromMissingCounts(recipe, pantry, |m.0|, |m.1|);
  }

  lemma ScoreFromMissingCounts(recipe: Recipe, pantry: set<string>, mc: nat, ms: nat)
    requires |recipe.coreIngredients| > 0
    requires mc + Hits(recipe.coreIngredients, pantry) == |recipe.coreIngredients|
    requires ms + Hits(recipe.supportingIngredients, pantry) == |recipe.supportingIngredients|
    ensures IngredientScore(recipe, pantry)
              == CoreWeight * Fraction(|recipe.coreIngredients| - mc, |recipe.coreIngredients|)
                 + SupportingWeight * Fraction(|recipe.supportingIngredients| - ms,
                                               |recipe.supportingIngredients|)
  {
    var core, supporting := recipe.coreIngredients, recipe.supportingIngredients;
    var hc, hs := Hits(core, pantry), Hits(supporting, pantry);
    assert Fraction(|core| - mc, |core|) == Fraction(hc, |core|);
    assert Fraction(|supporting| - ms, |supporting|) == Fraction(hs, |supporting|);
  }

  // ---------------------------------------------------------------------------
  // Macro balance
  // ---------------------------------------------------------------------------

  /** Total energy of the macros that count. */
  function Calories(m: Macros): real {
    m.carbs * CarbsFactor + m.protein * ProteinFactor + m.fat * FatFactor
  }

  predicate NonNegative(m: Macros) {
    m.carbs >= 0.0 && m.protein >= 0.0 && m.fat >= 0.0
  }

  /** `Recipe.macro_ratios`: each macro's share of the total energy, or all zero
      when the total is not positive. */
  function MacroRatios(recipe: Recipe): (r: Ratios)
    ensures Calories(recipe.macros) <= 0.0 ==> r == Ratios(0.0, 0.0, 0.0)
    ensures Calories(recipe.macros) > 0.0 ==> r.carbs + r.protein + r.fat == 1.0
    ensures Calories(recipe.macros) > 0.0 ==>
              && r.carbs * Calories(recipe.macros) == recipe.macros.carbs * CarbsFactor
              && r.protein * Calories(recipe.macros) == recipe.macros.protein * ProteinFactor
              && r.fat * Calories(recipe.macros) == recipe.macros.fat * FatFactor
    ensures NonNegative(recipe.macros) ==>
              0.0 <= r.carbs <= 1.0 && 0.0 <= r.protein <= 1.0 && 0.0 <= r.fat <= 1.0
  {
    var m := recipe.macros;
    var calories := Calories(m);
    if calories <= 0.0 then Ratios(0.0, 0.0, 0.0)
    else
      var r := Ratios(m.carbs * CarbsFactor / calories, m.protein * ProteinFactor / calories,
                      m.fat * FatFactor / calories);
      SharesOfTotal(m.carbs * CarbsFactor, m.protein * ProteinFactor, m.fat * FatFactor, r);
      r
  }

  /** Three parts divided by their positive sum add up to one, and with no part
      negative each lies between 0 and 1. */
  lemma SharesOfTotal(a: real, b: real, c: real, r: Ratios)
    requires a + b + c > 0.0
    requires r == Ratios(a / (a + b + c), b / (a + b + c), c / (a + b + c))
    ensures r.carbs * (a + b + c) == a && r.protein * (a + b + c) == b && r.fat * (a + b + c) == c
    ensures r.carbs + r.protein + r.fat == 1.0
    ensures a >= 0.0 && b >= 0.0 && c >= 0.0 ==>
              0.0 <= r.carbs <= 1.0 && 0.0 <= r.protein <= 1.0 && 0.0 <= r.fat <= 1.0
  {
    var t := a + b + c;
    DivTimes(a, t);
    DivTimes(b, t);
    DivTimes(c, t);
    SumOfShares(a, b, c);
    if a >= 0.0 && b >= 0.0 && c >= 0.0 {
      ShareBounds(a, t);
      ShareBounds(b, t);
      ShareBounds(c, t);
    }
  }

  lemma DivTimes(x: real, t: real)
    requires t != 0.0
    ensures (x / t) * t == x
  {
  }

  lemma SumOfShares(a: real, b: real, c: real)
    requires a + b + c > 0.0
    ensures a / (a + b + c) + b / (a + b + c) + c / (a + b + c) == 1.0
  {
    var t := a + b + c;
    assert a / t + b / t + c / t == (a + b + c) / t;
  }

  lemma ShareBounds(a: real, t: real)
    requires 0.0 <= a <= t && t > 0.0
    ensures 0.0 <= a / t <= 1.0
  {
  }

  function Abs(x: real): real {
    if x < 0.0 then -x else x
  }

  /** The three deviations from target, each in units of the tolerance. */
  function DeviationSum(r: Ratios): (d: real)
    ensures d >= 0.0
    ensures d == 0.0 <==> r == Target
  {
    Abs(r.carbs - Target.carbs) / Tolerance
      + Abs(r.protein - Target.protein) / Tolerance
      + Abs(r.fat - Target.fat) / Tolerance
  }

  /** `Recipe.balance_score`: one minus the mean deviation in tolerance units,
      clamped to [0, 1]. */
  function BalanceScore(recipe: Recipe): (r: real)
    ensures 0.0 <= r <= 1.0
    ensures r == 1.0 <==> MacroRatios(recipe) == Target
  {
    var score := 1.0 - DeviationSum(MacroRatios(recipe)) / 3.0;
    if score < 0.0 then 0.0 else if score > 1.0 then 1.0 else score
  }

  /** `Recipe.is_balanced`: every share lies within the tolerance of its target. */
  predicate IsBalanced(recipe: Recipe) {
    var r := MacroRatios(recipe);
    && Abs(r.carbs - Target.carbs) <= Tolerance
    && Abs(r.protein - Target.protein) <= Tolerance
    && Abs(r.fat - Target.fat) <= Tolerance
  }
  // ---------------------------------------------------------------------------
  // Properties of the scores
  // ---------------------------------------------------------------------------

  /** The pantry satisfies every phrase exactly when nothing is missing. */
  lemma HitsAllIff(xs: seq<string>, pantry: set<string>)
    ensures Hits(xs, pantry) == |xs| <==> forall x | x in xs :: Matches(x, pantry)
  {
    var m := MissingFrom(xs, pantry);
    if m != [] {
      assert m[0] in m;
    }
  }

  /** The pantry satisfies no phrase exactly when every phrase is missing. */
  lemma {:induction false} HitsZeroIff(xs: seq<string>, pantry: set<string>)
    ensures Hits(xs, pantry) == 0 <==> forall x | x in xs :: !Matches(x, pantry)
  {
    if xs != [] {
      HitsZeroIff(xs[1..], pantry);
      assert forall x | x in xs :: x == xs[0] || x in xs[1..];
    }
  }

  /** More pantry items never lower the hit count. */
  lemma {:induction false} HitsMonotone(xs: seq<string>, pantry: set<string>, larger: set<string>)
    requires pantry <= larger
    ensures Hits(xs, pantry) <= Hits(xs, larger)
  {
    if xs != [] {
      HitsMonotone(xs[1..], pantry, larger);
      if Matches(xs[0], pantry) {
        MatchesMonotone(xs[0], pantry, larger);
      }
    }
  }

  lemma FractionMonotone(h: nat, g: nat, total: nat)
    requires h <= g <= total
    ensures Fraction(h, total) <= Fraction(g, total)
  {
    if total > 0 {
      var t := total as real;
      var p, q := (h as real) / t, (g as real) / t;
      DivTimes(h as real, t);
      DivTimes(g as real, t);
      assert (q - p) * t == (g - h) as real;
      PositiveFactor(q - p, t);
    }
  }

  /** The coverage score is 1 exactly when the recipe has core and supporting
      ingredients and the pantry satisfies all of them. */
  lemma CoverageFullIff(recipe: Recipe, pantry: set<string>)
    ensures IngredientScore(recipe, pantry) == 1.0 <==>
            && |recipe.coreIngredients| > 0
            && |recipe.supportingIngredients| > 0
            && Missing(recipe, pantry) == ([], [])
  {
  }

  /** The coverage score is 0 exactly when the recipe has no core ingredients or
      the pantry satisfies none of its ingredients. */
  lemma CoverageZeroIff(recipe: Recipe, pantry: set<string>)
    ensures IngredientScore(recipe, pantry) == 0.0 <==>
            || |recipe.coreIngredients| == 0
            || (&& (forall x | x in recipe.coreIngredients :: !Matches(x, pantry))
                && (forall x | x in recipe.supportingIngredients :: !Matches(x, pantry)))
  {
    HitsZeroIff(recipe.coreIngredients, pantry);
    HitsZeroIff(recipe.supportingIngredients, pantry);
  }

  /** All core ingredients on hand but no supporting ingredients defined gives
      0.75, not 1: the supporting share then counts as 0. */
  lemma FullCoreWithoutSupportingIsThreeQuarters(recipe: Recipe, pantry: set<string>)
    requires |recipe.coreIngredients| > 0 && |recipe.supportingIngredients| == 0
    requires forall x | x in recipe.coreIngredients :: Matches(x, pantry)
    ensures IngredientScore(recipe, pantry) == 0.75
  {
    HitsAllIff(recipe.coreIngredients, pantry);
  }

  /** A larger pantry never lowers the coverage score. */
  lemma CoverageMonotone(recipe: Recipe, pantry: set<string>, larger: set<string>)
    requires pantry <= larger
    ensures IngredientScore(recipe, pantry) <= IngredientScore(recipe, larger)
  {
    var core, supporting := recipe.coreIngredients, recipe.supportingIngredients;
    HitsMonotone(core, pantry, larger);
    HitsMonotone(supporting, pantry, larger);
    FractionMonotone(Hits(core, pantry), Hits(core, larger), |core|);
    FractionMonotone(Hits(supporting, pantry), Hits(supporting, larger), |supporting|);
  }

  /** A recipe without positive energy is never balanced: its carbohydrate share
      reads 0, which is 0.4 away from its target. */
  lemma BalancedHasEnergy(recipe: Recipe)
    ensures IsBalanced(recipe) ==> Calories(recipe.macros) > 0.0
  {
  }

  /** A perfect balance score implies the recipe passes the balance gate. */
  lemma PerfectScoreIsBalanced(recipe: Recipe)
    requires BalanceScore(recipe) == 1.0
    ensures IsBalanced(recipe)
  {
  }

  /** For a balanced recipe the lower clamp of the balance score never applies:
      each deviation is at most one tolerance, so their mean is at most 1. */
  lemma BalancedScoreIsUnclamped(recipe: Recipe)
    requires IsBalanced(recipe)
    ensures BalanceScore(recipe) == 1.0 - DeviationSum(MacroRatios(recipe)) / 3.0
  {
    var r := MacroRatios(recipe);
    assert r.carbs + r.protein + r.fat == 1.0;
  }

  /** 50 g carbohydrate, 37.5 g protein and 50/3 g fat give 200, 150 and 150 of
      500 kcal: exactly the 40/30/30 target. */
  lemma OnTargetRecipe(recipe: Recipe)
    requires recipe.macros.carbs == 50.0 && recipe.macros.protein == 37.5
    requires recipe.macros.fat == 50.0 / 3.0
    ensures MacroRatios(recipe) == Target
    ensures BalanceScore(recipe) == 1.0
    ensures IsBalanced(recipe)
  {
    assert Calories(recipe.macros) == 500.0;
    var r := MacroRatios(recipe);
    assert r.carbs * 500.0 == 200.0;
    assert r.protein * 500.0 == 150.0;
    assert r.fat * 500.0 == 150.0;
  }
}

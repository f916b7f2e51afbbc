/** Ranking the collection against a pantry (`score_recipes`) and choosing how
    many results to show (`main`). */
module Ranking {
  import opened Matching
  import opened Recipes
  import opened Sorting
  import opened Selection

  /** Weights of coverage and balance in the ranking score. */
  const CoverageWeight: real := 0.8
  const BalanceWeight: real := 0.2

  /** The ranking score: 0.8 of the coverage score plus 0.2 of the balance score. */
  function CompositeScore(recipe: Recipe, pantry: set<string>): (r: real)
    ensures 0.0 <= r <= 1.0
    ensures r == 1.0 <==> IngredientScore(recipe, pantry) == 1.0 && BalanceScore(recipe) == 1.0
  {
    IngredientScore(recipe, pantry) * CoverageWeight + BalanceScore(recipe) * BalanceWeight
  }

  /** The recipes that pass the balance gate, in input order. */
  function Balanced(recipes: seq<Recipe>): seq<Recipe> {
    Filter(recipes, IsBalanced)
  }

  /** The loop of `score_recipes`: skip unbalanced recipes and pair each other
      one with its score, keeping input order. */
  function ScoreBalanced(recipes: seq<Recipe>, pantry: set<string>): seq<Scored<Recipe>> {
    ScoreEach(Balanced(recipes), r => CompositeScore(r, pantry))
  }

  /** `score_recipes`: the balanced recipes with their scores, best first. */
  function ScoreRecipes(recipes: seq<Recipe>, pantry: set<string>): (r: seq<Scored<Recipe>>)
    ensures SortedDescending(r)
    ensures forall j | 0 <= j < |r| ::
              && IsBalanced(r[j].item)
              && r[j].score == CompositeScore(r[j].item, pantry)
              && 0.0 <= r[j].score <= 1.0
    ensures forall x :: multiset(ItemsOf(r))[x] == if IsBalanced(x) then multiset(recipes)[x] else 0
    ensures forall x :: x in ItemsOf(r) <==> x in recipes && IsBalanced(x)
  {
    RankedSelection(recipes, IsBalanced, r => CompositeScore(r, pantry));
    SortDescending(ScoreBalanced(recipes, pantry))
  }

  // ---------------------------------------------------------------------------
  // Stability
  // ---------------------------------------------------------------------------

  /** The balanced recipes whose score is `v`, in input order. */
  function TiedRecipes(recipes: seq<Recipe>, pantry: set<string>, v: real): seq<Recipe> {
    Filter(recipes, x => IsBalanced(x) && CompositeScore(x, pantry) == v)
  }

  /** Recipes with equal scores come out in the order they went in. */
  lemma TiesKeepInputOrder(recipes: seq<Recipe>, pantry: set<string>, v: real)
    ensures ItemsOf(WithScore(ScoreRecipes(recipes, pantry), v)) == TiedRecipes(recipes, pantry, v)
  {
    SortIsStable(ScoreBalanced(recipes, pantry), v);
    ScoreEachTies(recipes, IsBalanced, r => CompositeScore(r, pantry), v,
                  x => IsBalanced(x) && CompositeScore(x, pantry) == v);
  }

  /** A balanced recipe stays in the ranking even when the pantry covers none of
      its ingredients; it is ranked on its balance alone. */
  lemma ZeroCoverageIsKept(recipes: seq<Recipe>, pantry: set<string>, recipe: Recipe)
    requires recipe in recipes && IsBalanced(recipe)
    requires IngredientScore(recipe, pantry) == 0.0
    ensures exists j | 0 <= j < |ScoreRecipes(recipes, pantry)| ::
              && ScoreRecipes(recipes, pantry)[j].item == recipe
              && ScoreRecipes(recipes, pantry)[j].score == BalanceWeight * BalanceScore(recipe)
  {
    var r := ScoreRecipes(recipes, pantry);
    assert recipe in ItemsOf(r);
    var j :| 0 <= j < |r| && ItemsOf(r)[j] == recipe;
  }

  /** The ranking is empty exactly when no recipe passes the balance gate. */
  lemma RankingEmptyIff(recipes: seq<Recipe>, pantry: set<string>)
    ensures ScoreRecipes(recipes, pantry) == [] <==> forall x | x in recipes :: !IsBalanced(x)
  {
    var r := ScoreRecipes(recipes, pantry);
    if r != [] {
      assert ItemsOf(r)[0] in ItemsOf(r);
    }
  }

  // ---------------------------------------------------------------------------
  // How many results are shown
  // ---------------------------------------------------------------------------

  /** `max(1, top)`: at least one result, with no upper cap. */
  function Limit(top: int): (r: nat)
    ensures r >= 1
    ensures top >= 1 ==> r == top
    ensures top < 1 ==> r == 1
  {
    if top < 1 then 1 else top
  }

  /** `matches[:limit]`. */
  function TopResults(matches: seq<Scored<Recipe>>, top: int): (r: seq<Scored<Recipe>>)
    ensures |r| == Min(|matches|, Limit(top))
    ensures r <= matches
    ensures matches != [] ==> |r| >= 1
  {
    if |matches| < Limit(top) then matches else matches[..Limit(top)]
  }

  /** Taken from a ranking, the shown results score at least as high as every
      match left out. */
  lemma ShownBeatOmitted(matches: seq<Scored<Recipe>>, top: int)
    requires SortedDescending(matches)
    ensures var r := TopResults(matches, top);
            forall i, j | 0 <= i < |r| <= j < |matches| :: r[i].score >= matches[j].score
  {
  }

  /** What `main` reports once its inputs are read. */
  datatype Outcome =
    | NoIngredients
    | NoBalancedRecipes
    | Ranked(results: seq<Scored<Recipe>>)

  /** The decisions of `main`: an empty pantry is refused, a collection without
      balanced recipes reports that, and otherwise the best `max(1, top)`
      ranked recipes are shown. */
  function Recommend(recipes: seq<Recipe>, pantry: set<string>, top: int): (r: Outcome)
    ensures r.NoIngredients? <==> pantry == {}
    ensures r.NoBalancedRecipes? <==> pantry != {} && forall x | x in recipes :: !IsBalanced(x)
    ensures r.Ranked? ==>
              && 1 <= |r.results| <= Limit(top)
              && |r.results| == Min(|ScoreRecipes(recipes, pantry)|, Limit(top))
              && r.results <= ScoreRecipes(recipes, pantry)
              && SortedDescending(r.results)
  {
    if pantry == {} then NoIngredients
    else
      var matches := ScoreRecipes(recipes, pantry);
      RankingEmptyIff(recipes, pantry);
      if matches == [] then NoBalancedRecipes
      else Ranked(TopResults(matches, top))
  }
}

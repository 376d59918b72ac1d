/** The recipe records returned by the recipe-matching service, as far as the
    page logic reads them, and small sequence helpers shared by the modules. */
module RecipeData {

  datatype Option<+T> = None | Some(value: T)

  /** One ingredient record: `originalName` and `amount` (a float, here a real). */
  datatype Ingredient = Ingredient(originalName: string, amount: real)

  /** A recipe record. The three ingredient lists are optional keys of the
      service's JSON object; `None` stands for a key that is absent. */
  datatype Recipe = Recipe(
    title: string,
    usedIngredients: Option<seq<Ingredient>>,
    missedIngredients: Option<seq<Ingredient>>,
    unusedIngredients: Option<seq<Ingredient>>)

  /** `recipe.get(key, [])`: an absent list reads as the empty list. */
  function OrEmpty(list: Option<seq<Ingredient>>): seq<Ingredient> {
    match list
    case None => []
    case Some(items) => items
  }

  /** The `originalName` of every record, in order. */
  function RecordNames(records: seq<Ingredient>): (names: seq<string>)
    ensures |names| == |records|
    ensures forall i :: 0 <= i < |records| ==> names[i] == records[i].originalName
  {
    seq(|records|, i requires 0 <= i < |records| => records[i].originalName)
  }

  /** No element occurs twice. */
  predicate Distinct<T(==)>(xs: seq<T>) {
    forall i, j :: 0 <= i < j < |xs| ==> xs[i] != xs[j]
  }
}

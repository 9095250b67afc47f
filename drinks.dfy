/** The menu's value types: `Drink`, `Ingredient` and `IngredientServeStatus`
    (`MixBot/Models/Drink.swift`, `Ingredient.swift`, `IngredientServeStatus.swift`).
    The `UUID` identities the views use are not modelled. */
module Drinks {
  import opened Wrappers

  /** An ingredient of a recipe: the station that pours it and its share of
      the drink, in percent. */
  datatype Ingredient = Ingredient(name: string, stationId: int, percent: real)

  /** A recipe: its total quantity (an unsigned integer) and its ingredients
      in pouring order. */
  datatype Drink = Drink(name: string, description: Option<string>, totalQty: nat, ingredients: seq<Ingredient>)

  /** How far one ingredient of a drink being served has got. */
  datatype IngredientServeStatus = IngredientServeStatus(ingredient: Ingredient, done: bool, weightServed: real)
}

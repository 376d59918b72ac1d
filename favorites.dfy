/** The favourites list kept in the page's session state (recipe.py): it
    starts empty and the "Add to favorites" button appends a recipe title
    unless the title is already there. */
module FavoriteRecipes {
  import opened RecipeData

  class Favorites {
    /** The titles, in the order they were added. */
    var titles: seq<string>

    /** Append-if-absent keeps every title at most once. */
    ghost predicate Valid()
      reads this
    {
      Distinct(titles)
    }

    /** The session starts with no favourites. */
    constructor ()
      ensures Valid() && titles == []
    {
      titles := [];
    }

    /** The button handler: the title is appended when it is absent and the
        list is left as it was when it is present; `added` tells which, and
        decides whether the success message is shown. */
    method Add(title: string) returns (added: bool)
      requires Valid()
      modifies this
      ensures Valid()
      ensures added <==> title !in old(titles)
      ensures added ==> titles == old(titles) + [title]
      ensures !added ==> titles == old(titles)
    {
      if title !in titles {
        titles := titles + [title];
        added := true;
      } else {
        added := false;
      }
    }
  }
}

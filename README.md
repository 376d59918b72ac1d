# Recipe Finder — a Dafny model of the page logic of `recipe.py`

Recipe Finder is a small Streamlit page. The user types ingredients separated
by commas. The page asks a recipe-matching service for recipes that use them.
For each recipe it shows a pie chart of the ingredient amounts, scaled by the
number of people. A button adds the recipe's title to a favourites list. At the
foot of the page is a shopping list of every missed ingredient.

This project models the four pieces of that page that compute something:

- **Ingredient query** (`ingredient_query.dfy`, on top of `pystr.dfy`). The
  text is split on `,`. Each piece is stripped of Python whitespace. Blank
  pieces are dropped. The rest are joined by `,+` into the query parameter.
  `pystr.dfy` models the Python `str` operations used: `isspace`, `strip`,
  `split` on one character, and `join`.
- **Ingredient table** (`ingredient_table.dfy`). `create_ingredients_dataframe`
  is a method with the source's two loops, over the used and then the missed
  ingredients. Each loop does the dictionary assignment
  `data[name] = people_count * amount`. The dictionary is a list of rows in
  insertion order, and `Put` is the assignment. The method is proved against
  `Tabulates`, a description of the finished table:
  - one row per distinct `originalName`, in the order names were first seen;
  - each row holds `people_count` times the amount of the last record with
    that name.

  A name that is both used and missed takes its missed amount. Amounts are
  overwritten, not added up: `recipe.py` assigns at lines 42 and 45.
- **Favourites** (`favorites.dfy`). A class whose `titles` field the button
  handler appends to, only when the title is not already there.
- **Shopping list** (`shopping_list.dfy`). `sorted(set(all_missing))`, with
  Python's code-point order on strings. It is proved strictly ascending, free
  of duplicates, and holding exactly the missed names of all recipes.

`recipe_data.dfy` holds the recipe records as the page reads them. A list
stored under an optional key (`recipe.get("usedIngredients", [])`) is an
`Option` that reads as empty when absent.

## Model

| member | source | states |
|---|---|---|
| `PyStr.IsSpace` | recipe.py:20 | definition, no contract: true exactly for the characters Python's `str.isspace` accepts, as a fixed table of code points |
| `PyStr.StripLeft` | recipe.py:20 | the result is a suffix of the text; everything dropped is whitespace; it does not start with whitespace |
| `PyStr.StripRight` | recipe.py:20 | the result is a prefix of the text; everything dropped is whitespace; it does not end with whitespace |
| `PyStr.Strip` | recipe.py:20 | `str.strip()`: the result neither starts nor ends with whitespace |
| `PyStr.StripTrims` | recipe.py:20 | `s.strip()` is a slice of `s` with only whitespace before it and only whitespace after it; with the ensures of `Strip`, these are the whole leading and trailing runs |
| `PyStr.StripSubsequence` | recipe.py:20 | stripping adds no character: a character absent from the text is absent from the stripped text |
| `PyStr.StripBlank` | recipe.py:20 | a text made only of whitespace strips to the empty string, so the `if i.strip()` filter drops it |
| `PyStr.Split` | recipe.py:20 | `str.split(',')`: one more piece than there are separators; no piece holds the separator; every character of a piece comes from the text |
| `PyStr.Join` | recipe.py:21 | definition, no contract: `sep.join(parts)`, the parts with `sep` between neighbours; `JoinSplit` and `SplitJoin` state its round trips with `Split` |
| `PyStr.JoinExtendHead` | recipe.py:21 | a character put in front of the first part ends up in front of the joined text |
| `PyStr.JoinSplit` | recipe.py:20 | joining the pieces of a split with the separator gives back the text |
| `PyStr.SplitJoin` | recipe.py:21 | splitting a join of separator-free pieces gives back the pieces |
| `PyStr.SplitWithoutSeparator` | recipe.py:20 | a text without the separator splits into itself alone |
| `PyStr.SplitAround` | recipe.py:20 | splitting `a + sep + b` gives the pieces of `a` followed by the pieces of `b` |
| `IngredientQuery.StripNonEmptyConcat` | recipe.py:20 | the strip-and-filter comprehension maps a concatenation to the concatenation of its results |
| `IngredientQuery.StripNonEmpty` | recipe.py:20 | `[i.strip() for i in pieces if i.strip()]`: at most one item per piece; its content is pinned by `StripNonEmptyConcat`, `StripNonEmptyWellFormed`, `ParseSingle` and `AllBlank` |
| `IngredientQuery.StripNonEmptyWellFormed` | recipe.py:20 | every kept item is non-empty, has no surrounding whitespace and holds no comma |
| `IngredientQuery.ParseIngredients` | recipe.py:20 | at most one ingredient per comma-separated piece, and every ingredient is non-empty, stripped and comma-free |
| `IngredientQuery.ParseAround` | recipe.py:20 | the ingredients of `a + "," + b` are those of `a` followed by those of `b`, in order |
| `IngredientQuery.ParseSingle` | recipe.py:20 | a comma-free text is one ingredient, its stripped self, or none when it is blank |
| `IngredientQuery.ParseOnlySeparators` | recipe.py:20 | a text of only commas and whitespace has no ingredients |
| `IngredientQuery.AllBlank` | recipe.py:20 | pieces that all strip to nothing leave no ingredient |
| `IngredientQuery.QueryParameter` | recipe.py:20-21 | no ingredients give the empty parameter; otherwise splitting the parameter on `,` gives the first ingredient and then each later one with `+` in front |
| `IngredientQuery.PlusJoin` | recipe.py:21 | a `+` in front of a `,+`-join is the `,`-join of the `+`-prefixed items |
| `IngredientQuery.JoinPlusAfterFirst` | recipe.py:21 | joining by `,+` is joining by `,` after a `+` is put before every item but the first |
| `IngredientQuery.QueryRoundTrip` | recipe.py:20-21 | for comma-free items, the `,+`-joined parameter splits back on `,` into the items, the later ones `+`-prefixed |
| `RecipeData.OrEmpty` | recipe.py:40 | definition, no contract: `recipe.get(key, [])`, the stored list, or the empty list when the key is absent |
| `IngredientTable.Put` | recipe.py:42 | `data[name] = amount`: a present key keeps its row, an absent key is appended, no other row changes; on distinct keys (as every dictionary has) the keys stay distinct and the key's row holds the new amount |
| `IngredientTable.FirstSeen` | recipe.py:39-45 | the names, each once, holding exactly the names that occur |
| `IngredientTable.FirstIndex` | recipe.py:42 | the position of the first occurrence of a name |
| `IngredientTable.FirstSeenOrder` | recipe.py:39-45 | table rows follow the order in which their names first occur among the records |
| `IngredientTable.FirstIndexInPrefix` | recipe.py:39-45 | a name occurring in a prefix has its first occurrence there |
| `IngredientTable.LastAmountIsLast` | recipe.py:42-45 | a name's amount is that of the record after which no record has that name |
| `IngredientTable.MissedOverwritesUsed` | recipe.py:40-45 | a missed record overrides a used one of the same name; a name only among the used keeps its used amount |
| `IngredientTable.RecordNamesAppend` | recipe.py:41 | one more record adds its name at the end |
| `IngredientTable.FirstSeenAppend` | recipe.py:42 | one more name adds a row only when the name is new |
| `IngredientTable.LastAmountAppend` | recipe.py:42 | one more record sets the amount of its own name and leaves the others |
| `IngredientTable.Scale` | recipe.py:42 | definition, no contract: `people_count * amount`, the value one record stores |
| `IngredientTable.TabulatesPut` | recipe.py:42 | one dictionary assignment turns the table of some records into the table of those records plus one |
| `IngredientTable.TabulatesUnique` | recipe.py:39-45 | a table is determined by its records and the people count |
| `IngredientTable.Assign` | recipe.py:40-45 | definition, no contract: the dictionary after `data[name] = people_count * amount` for each record in turn; `AssignSnoc`, `AssignConcat`, `AssignTable` and `TableTabulates` state what it computes |
| `IngredientTable.AssignSnoc` | recipe.py:40-45 | assigning one more record after a run of assignments is one more `Put` |
| `IngredientTable.AssignConcat` | recipe.py:40-45 | running the used loop and then the missed loop is one run over the used records followed by the missed |
| `IngredientTable.AssignTable` | recipe.py:39-45 | assigning every record into an empty dictionary gives the table built one record at a time |
| `IngredientTable.TableTabulates` | recipe.py:39-45 | the table built by assignments is the table described by `Tabulates` |
| `IngredientTable.TabulatesEmpty` | recipe.py:123 | the table is empty exactly when there are no records |
| `IngredientTable.RecipeTable` | recipe.py:37-45 | the two loops' result describes the used and then the missed records, and is empty exactly when both lists are |
| `IngredientTable.CreateIngredientsTable` | recipe.py:37-48 | one row per distinct used or missed name, in first-seen order, holding `people_count` times the amount of its last record; empty exactly when the recipe has no used and no missed ingredients |
| `IngredientTable.FlourOverwrittenNotSummed` | recipe.py:40-45 | used `flour` 1.0 and missed `flour` 0.5 for two people give a single `flour` row of 1.0, not 3.0 |
| `FavoriteRecipes.Favorites.constructor` | recipe.py:15-16 | the session starts with no favourites |
| `FavoriteRecipes.Favorites.Add` | recipe.py:99-102 | the title is appended exactly when it is absent, and the list is otherwise unchanged; the titles stay distinct |
| `ShoppingList.Less` | recipe.py:133 | definition, no contract: Python's `<` on `str`, lexicographic by code point with a proper prefix first; `LessIrreflexive`, `LessTransitive`, `LessTotal` make it a strict total order |
| `ShoppingList.LessIrreflexive` | recipe.py:133 | no string sorts before itself |
| `ShoppingList.LessTransitive` | recipe.py:133 | string order is transitive |
| `ShoppingList.LessTotal` | recipe.py:133 | of two different strings one sorts before the other |
| `ShoppingList.LessAsymmetric` | recipe.py:133 | no two strings each sort before the other |
| `ShoppingList.AscendingDistinct` | recipe.py:133 | a strictly ascending list has no duplicates |
| `ShoppingList.Insert` | recipe.py:133 | inserting into a strictly ascending list keeps it strictly ascending and adds exactly the new element |
| `ShoppingList.SortedSet` | recipe.py:133 | `sorted(set(xs))`: strictly ascending, holding exactly the elements of `xs` |
| `ShoppingList.HeadLeast` | recipe.py:133 | the head of a strictly ascending list is its least element |
| `ShoppingList.AscendingUnique` | recipe.py:133 | two strictly ascending lists with the same elements are equal, so `sorted(set(xs))` has one answer |
| `ShoppingList.TailMembers` | recipe.py:133 | the tail of a duplicate-free list holds every element but the head |
| `ShoppingList.AllMissing` | recipe.py:130 | `all_missing` holds exactly the missed names of all recipes |
| `ShoppingList.ShoppingItems` | recipe.py:130-133 | the shopping list is strictly ascending, has no duplicates, and holds exactly the missed names of all recipes |

## Left out

- The request to the recipe service, its status check and its error message (recipe.py:22-30). These are network I/O; the model stops at the query parameter.
- The API key lookup (recipe.py:9). It is configuration, not logic.
- The Streamlit layout, widgets and session-state set-up for recipe data (recipe.py:13-14, 50-127, 134). These are presentation; only the favourites list is modelled.
- `format_amount_number` (recipe.py:32-35). It only rounds floats and formats them for display.
- The pandas DataFrame wrapper and the pie chart (recipe.py:46-47, 122-127). The table is modelled as its rows; the chart only draws them.
- Floating point: amounts are reals, so `people_count * amount` is exact here; float rounding is not modelled.
- Missing keys: a record without `originalName`, `amount` or `title` raises `KeyError` in Python. Here those fields always exist.
- `PyStr.IsSpace`: covers the characters for which Python's `str.isspace` is true, as a fixed table of code points. It does not read the Unicode database.
- `FavoriteRecipes.Favorites.Add`: the success message (recipe.py:102) is not modelled. The `added` result says when it would be shown.

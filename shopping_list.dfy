/** The shopping list at the foot of the page (recipe.py): the names of the
    missed ingredients of every recipe, each once, in Python's string order
    (`sorted(set(all_missing))`). */
module ShoppingList {
  import opened RecipeData

  /** Python's `<` on `str`: lexicographic by code point, a proper prefix
      coming first. */
  predicate Less(a: string, b: string) {
    if a == [] then b != []
    else b != [] && (a[0] < b[0] || (a[0] == b[0] && Less(a[1..], b[1..])))
  }

  lemma {:induction false} LessIrreflexive(a: string)
    ensures !Less(a, a)
  {
    if a != [] {
      LessIrreflexive(a[1..]);
    }
  }

  lemma {:induction false} LessTransitive(a: string, b: string, c: string)
    requires Less(a, b) && Less(b, c)
    ensures Less(a, c)
  {
    if a != [] && a[0] == b[0] && b[0] == c[0] {
      LessTransitive(a[1..], b[1..], c[1..]);
    }
  }

  lemma {:induction false} LessTotal(a: string, b: string)
    requires a != b
    ensures Less(a, b) || Less(b, a)
  {
    if a != [] && b != [] && a[0] == b[0] {
      assert a == [a[0]] + a[1..] && b == [b[0]] + b[1..];
      LessTotal(a[1..], b[1..]);
    }
  }

  /** Sorted with no duplicates. */
  predicate StrictlyAscending(s: seq<string>) {
    forall i, j :: 0 <= i < j < |s| ==> Less(s[i], s[j])
  }

  lemma AscendingDistinct(s: seq<string>)
    requires StrictlyAscending(s)
    ensures Distinct(s)
  {
    forall i, j | 0 <= i < j < |s| ensures s[i] != s[j] {
      LessIrreflexive(s[i]);
    }
  }

  /** `x` added to a strictly ascending list, where it belongs, unless it is
      already there. */
  function Insert(s: seq<string>, x: string): (r: seq<string>)
    requires StrictlyAscending(s)
    ensures StrictlyAscending(r)
    ensures forall y :: y in r <==> y in s || y == x
  {
    if s == [] then [x]
    else if x == s[0] then s
    else if Less(x, s[0]) then
      forall j | 0 < j < |s| ensures Less(x, s[j]) {
        LessTransitive(x, s[0], s[j]);
      }
      [x] + s
    else
      LessTotal(x, s[0]);
      var rest := Insert(s[1..], x);
      assert forall y :: y in s[1..] ==> y in s;
      forall j | 0 <= j < |rest| ensures Less(s[0], rest[j]) {
        if rest[j] != x {
          assert rest[j] in s[1..];
          var k :| 0 <= k < |s[1..]| && s[1..][k] == rest[j];
          assert s[k + 1] == rest[j];
        }
      }
      assert s == [s[0]] + s[1..];
      [s[0]] + rest
  }

  /** `sorted(set(xs))`. */
  function SortedSet(xs: seq<string>): (r: seq<string>)
    ensures StrictlyAscending(r)
    ensures forall y :: y in r <==> y in xs
  {
    if xs == [] then []
    else
      var init := xs[..|xs| - 1];
      assert xs == init + [xs[|xs| - 1]];
      Insert(SortedSet(init), xs[|xs| - 1])
  }

  lemma LessAsymmetric(a: string, b: string)
    ensures !(Less(a, b) && Less(b, a))
  {
    if Less(a, b) && Less(b, a) {
      LessTransitive(a, b, a);
      LessIrreflexive(a);
    }
  }

  /** The head of a strictly ascending list is its least element. */
  lemma HeadLeast(a: seq<string>)
    requires a != [] && StrictlyAscending(a)
    ensures forall y :: y in a ==> y == a[0] || Less(a[0], y)
  {
    forall y | y in a ensures y == a[0] || Less(a[0], y) {
      var k :| 0 <= k < |a| && a[k] == y;
      if k > 0 {
        assert Less(a[0], a[k]);
      }
    }
  }

  /** A strictly ascending list is fixed by its elements, so SortedSet is the
      only answer `sorted(set(xs))` can give. */
  lemma {:induction false} AscendingUnique(a: seq<string>, b: seq<string>)
    requires StrictlyAscending(a) && StrictlyAscending(b)
    requires forall y :: y in a <==> y in b
    ensures a == b
  {
    assert a != [] ==> a[0] in b;
    assert b != [] ==> b[0] in a;
    if a != [] {
      HeadLeast(a);
      HeadLeast(b);
      LessAsymmetric(a[0], b[0]);
      assert a[0] == b[0];
      AscendingDistinct(a);
      AscendingDistinct(b);
      TailMembers(a);
      TailMembers(b);
      AscendingUnique(a[1..], b[1..]);
      assert a == [a[0]] + a[1..] && b == [b[0]] + b[1..];
    }
  }

  /** The tail of a list without duplicates holds every element but the head. */
  lemma TailMembers(a: seq<string>)
    requires a != [] && Distinct(a)
    ensures forall y :: y in a[1..] <==> y in a && y != a[0]
  {
    forall y | y in a && y != a[0] ensures y in a[1..] {
      var k :| 0 <= k < |a| && a[k] == y;
      assert a[1..][k - 1] == y;
    }
  }

  /** The `originalName` of every missed ingredient of one recipe. */
  function MissedNames(recipe: Recipe): seq<string> {
    RecordNames(OrEmpty(recipe.missedIngredients))
  }

  /** `all_missing`: the missed names of all recipes, recipe by recipe. */
  function AllMissing(recipes: seq<Recipe>): (names: seq<string>)
    ensures forall y :: y in names <==> exists k :: 0 <= k < |recipes| && y in MissedNames(recipes[k])
  {
    if recipes == [] then []
    else
      var rest := AllMissing(recipes[1..]);
      assert forall k :: 0 < k < |recipes| ==> recipes[1..][k - 1] == recipes[k];
      MissedNames(recipes[0]) + rest
  }

  /** The shopping list: strictly ascending, and holding exactly the names of
      the missed ingredients across all recipes. */
  function ShoppingItems(recipes: seq<Recipe>): (items: seq<string>)
    ensures StrictlyAscending(items)
    ensures Distinct(items)
    ensures forall y :: y in items <==> exists k :: 0 <= k < |recipes| && y in MissedNames(recipes[k])
  {
    var items := SortedSet(AllMissing(recipes));
    AscendingDistinct(items);
    items
  }
}

/** Turning the comma-separated text typed into the "Ingredients" box into the
    `ingredients` query parameter of the recipe search (recipe.py, get_recipes). */
module IngredientQuery {
  import opened PyStr

  /** An ingredient as the parser hands it on: non-empty, without surrounding
      whitespace, and without a comma. */
  predicate WellFormed(item: string) {
    item != [] && !IsSpace(item[0]) && !IsSpace(item[|item| - 1]) && ',' !in item
  }

  /** `[i.strip() for i in pieces if i.strip()]`. */
  function StripNonEmpty(pieces: seq<string>): (items: seq<string>)
    ensures |items| <= |pieces|
  {
    if pieces == [] then []
    else
      var head := Strip(pieces[0]);
      if head != [] then [head] + StripNonEmpty(pieces[1..]) else StripNonEmpty(pieces[1..])
  }

  lemma {:induction false} StripNonEmptyConcat(a: seq<string>, b: seq<string>)
    ensures StripNonEmpty(a + b) == StripNonEmpty(a) + StripNonEmpty(b)
  {
    if a != [] {
      assert (a + b)[0] == a[0];
      assert (a + b)[1..] == a[1..] + b;
      StripNonEmptyConcat(a[1..], b);
    } else {
      assert a + b == b;
    }
  }

  lemma {:induction false} StripNonEmptyWellFormed(pieces: seq<string>)
    requires forall i :: 0 <= i < |pieces| ==> ',' !in pieces[i]
    ensures forall i :: 0 <= i < |StripNonEmpty(pieces)| ==> WellFormed(StripNonEmpty(pieces)[i])
  {
    if pieces != [] {
      var head, rest := Strip(pieces[0]), StripNonEmpty(pieces[1..]);
      StripNonEmptyWellFormed(pieces[1..]);
      var items := StripNonEmpty(pieces);
      if head != [] {
        StripSubsequence(pieces[0], ',');
        assert items == [head] + rest;
        forall i | 0 <= i < |items| ensures WellFormed(items[i]) {
          if i > 0 { assert items[i] == rest[i - 1]; }
        }
      } else {
        assert items == rest;
      }
    }
  }

  /** The ingredient list of get_recipes: the text split on commas, each piece
      stripped, empty pieces dropped. */
  function ParseIngredients(text: string): (items: seq<string>)
    ensures |items| <= Count(text, ',') + 1
    ensures forall i :: 0 <= i < |items| ==> WellFormed(items[i])
  {
    StripNonEmptyWellFormed(Split(text, ','));
    StripNonEmpty(Split(text, ','))
  }

  /** The query parameter: the ingredients joined by `,+`. Splitting it on
      commas gives the first ingredient followed by every later one with a
      `+` in front; no ingredients give the empty parameter. */
  function QueryParameter(text: string): (q: string)
    ensures ParseIngredients(text) == [] ==> q == []
    ensures ParseIngredients(text) != [] ==> Split(q, ',') == PlusAfterFirst(ParseIngredients(text))
  {
    var items := ParseIngredients(text);
    if items == [] then Join(items, ",+")
    else QueryRoundTrip(items); Join(items, ",+")
  }

  /** `[xs[0], "+" + xs[1], ..., "+" + xs[n-1]]`. */
  function PlusAfterFirst(xs: seq<string>): (ys: seq<string>)
    requires xs != []
  {
    [xs[0]] + PlusEach(xs[1..])
  }

  /** `["+" + x for x in xs]`. */
  function PlusEach(xs: seq<string>): (ys: seq<string>)
    ensures |ys| == |xs|
    ensures forall i :: 0 <= i < |xs| ==> ys[i] == "+" + xs[i]
  {
    seq(|xs|, i requires 0 <= i < |xs| => "+" + xs[i])
  }

  /** A `+` in front of a `,+`-join is the `,`-join of the `+`-prefixed items. */
  lemma {:induction false} PlusJoin(xs: seq<string>)
    requires xs != []
    ensures "+" + Join(xs, ",+") == Join(PlusEach(xs), ",")
  {
    if |xs| > 1 {
      PlusJoin(xs[1..]);
      assert PlusEach(xs)[1..] == PlusEach(xs[1..]);
      calc {
        "+" + Join(xs, ",+");
        "+" + (xs[0] + ",+" + Join(xs[1..], ",+"));
        ("+" + xs[0]) + "," + ("+" + Join(xs[1..], ",+"));
        Join(PlusEach(xs), ",");
      }
    }
  }

  /** Joining by `,+` is joining by `,` after putting `+` before every item but the first. */
  lemma JoinPlusAfterFirst(xs: seq<string>)
    requires xs != []
    ensures Join(xs, ",+") == Join(PlusAfterFirst(xs), ",")
  {
    var ys := PlusAfterFirst(xs);
    if |xs| > 1 {
      PlusJoin(xs[1..]);
      assert ys[1..] == PlusEach(xs[1..]);
      calc {
        Join(xs, ",+");
        xs[0] + "," + ("+" + Join(xs[1..], ",+"));
        ys[0] + "," + Join(ys[1..], ",");
      }
    }
  }

  lemma QueryRoundTrip(xs: seq<string>)
    requires xs != []
    requires forall i :: 0 <= i < |xs| ==> ',' !in xs[i]
    ensures Split(Join(xs, ",+"), ',') == PlusAfterFirst(xs)
  {
    var ys := PlusAfterFirst(xs);
    JoinPlusAfterFirst(xs);
    forall i | 0 <= i < |ys| ensures ',' !in ys[i] {
      if i > 0 { assert ys[i] == "+" + xs[i]; }
    }
    SplitJoin(ys, ',');
  }

  /** Left-to-right order: the ingredients of two comma-separated texts joined
      by a comma are those of the first followed by those of the second. */
  lemma ParseAround(a: string, b: string)
    ensures ParseIngredients(a + "," + b) == ParseIngredients(a) + ParseIngredients(b)
  {
    SplitAround(a, b, ',');
    StripNonEmptyConcat(Split(a, ','), Split(b, ','));
  }

  /** A text without commas is one ingredient, its stripped self, unless it is blank. */
  lemma ParseSingle(a: string)
    requires ',' !in a
    ensures ParseIngredients(a) == if Strip(a) == [] then [] else [Strip(a)]
  {
    SplitWithoutSeparator(a, ',');
    assert [a][1..] == [];
  }

  /** Text made only of commas and whitespace has no ingredients. */
  lemma {:induction false} ParseOnlySeparators(text: string)
    requires forall i :: 0 <= i < |text| ==> text[i] == ',' || IsSpace(text[i])
    ensures ParseIngredients(text) == []
  {
    var pieces := Split(text, ',');
    forall k | 0 <= k < |pieces| ensures Strip(pieces[k]) == [] {
      forall j | 0 <= j < |pieces[k]| ensures IsSpace(pieces[k][j]) {
        assert pieces[k][j] in text;
      }
      StripBlank(pieces[k]);
    }
    AllBlank(pieces);
  }

  lemma {:induction false} AllBlank(pieces: seq<string>)
    requires forall k :: 0 <= k < |pieces| ==> Strip(pieces[k]) == []
    ensures StripNonEmpty(pieces) == []
  {
    if pieces != [] {
      AllBlank(pieces[1..]);
    }
  }
}

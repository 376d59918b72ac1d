/** The per-recipe ingredient table behind the pie chart
    (recipe.py, create_ingredients_dataframe): a dictionary from ingredient
    name to `people_count * amount`, filled from the used and then the missed
    ingredients. A later record with a name already present overwrites the
    amount and keeps the row where the name was first inserted. */
module IngredientTable {
  import opened RecipeData

  /** One row of the table: the dictionary key and its value. */
  datatype Row = Row(name: string, amount: real)

  /** The keys of the table, in row order. */
  function Names(rows: seq<Row>): (names: seq<string>)
    ensures |names| == |rows|
    ensures forall i :: 0 <= i < |rows| ==> names[i] == rows[i].name
  {
    seq(|rows|, i requires 0 <= i < |rows| => rows[i].name)
  }

  /** The records the table is built from: used, then missed. The unused
      ingredients take no part. */
  function ChartedIngredients(recipe: Recipe): seq<Ingredient> {
    OrEmpty(recipe.usedIngredients) + OrEmpty(recipe.missedIngredients)
  }

  /** `data[name] = amount` on a dictionary kept as a list of rows in
      insertion order: an existing key keeps its position and takes the new
      amount, a new key goes at the end. */
  function Put(rows: seq<Row>, name: string, amount: real): (r: seq<Row>)
    ensures Names(r) == if name in Names(rows) then Names(rows) else Names(rows) + [name]
    ensures forall i :: 0 <= i < |r| && r[i].name != name ==> i < |rows| && r[i] == rows[i]
    ensures Distinct(Names(rows)) ==> Distinct(Names(r))
    ensures Distinct(Names(rows)) ==> forall i :: 0 <= i < |r| && r[i].name == name ==> r[i].amount == amount
  {
    if name in Names(rows) then
      var k := FirstIndex(Names(rows), name);
      var r := rows[k := Row(name, amount)];
      assert Names(r) == Names(rows);
      r
    else
      var r := rows + [Row(name, amount)];
      assert Names(r) == Names(rows) + [name];
      r
  }

  /** The names of `names`, each once, in the order of their first occurrence. */
  function FirstSeen(names: seq<string>): (r: seq<string>)
    ensures forall x :: x in r <==> x in names
    ensures Distinct(r)
  {
    if names == [] then []
    else
      var prior := FirstSeen(names[..|names| - 1]);
      var x := names[|names| - 1];
      assert names == names[..|names| - 1] + [x];
      if x in prior then prior else prior + [x]
  }

  /** The position of the first occurrence of `x` in `names`. */
  function FirstIndex(names: seq<string>, x: string): (k: nat)
    requires x in names
    ensures k < |names| && names[k] == x
    ensures forall j :: 0 <= j < k ==> names[j] != x
  {
    if names[0] == x then 0 else 1 + FirstIndex(names[1..], x)
  }

  /** Rows appear in the order their names were first seen. */
  lemma {:induction false} FirstSeenOrder(names: seq<string>, i: nat, j: nat)
    requires i < j < |FirstSeen(names)|
    ensures FirstIndex(names, FirstSeen(names)[i]) < FirstIndex(names, FirstSeen(names)[j])
  {
    var n := |names|;
    var init := names[..n - 1];
    var prior := FirstSeen(init);
    var r := FirstSeen(names);
    assert r[i] == prior[i];
    FirstIndexInPrefix(names, n - 1, r[i]);
    if j < |prior| {
      assert r[j] == prior[j] && r[i] == prior[i];
      FirstSeenOrder(init, i, j);
      FirstIndexInPrefix(names, n - 1, r[j]);
    } else {
      assert r[j] == names[n - 1] && r[j] !in init;
    }
  }

  lemma FirstIndexInPrefix(names: seq<string>, m: nat, x: string)
    requires m <= |names| && x in names[..m]
    ensures FirstIndex(names, x) == FirstIndex(names[..m], x) < m
  {
    var k := FirstIndex(names[..m], x);
    assert names[k] == x;
  }

  /** The amount of the last record named `name`. */
  function LastAmount(records: seq<Ingredient>, name: string): real
    requires name in RecordNames(records)
  {
    var n := |records|;
    assert RecordNames(records) == RecordNames(records[..n - 1]) + [records[n - 1].originalName];
    if records[n - 1].originalName == name then records[n - 1].amount
    else LastAmount(records[..n - 1], name)
  }

  /** LastAmount is the amount of the record after which no record has that name. */
  lemma {:induction false} LastAmountIsLast(records: seq<Ingredient>, name: string, j: nat)
    requires j < |records| && records[j].originalName == name
    requires forall k :: j < k < |records| ==> records[k].originalName != name
    ensures name in RecordNames(records)
    ensures LastAmount(records, name) == records[j].amount
  {
    var n := |records|;
    assert RecordNames(records)[j] == name;
    if j < n - 1 {
      var init := records[..n - 1];
      assert init[j] == records[j];
      LastAmountIsLast(init, name, j);
    }
  }

  /** A missed record overwrites a used one of the same name: the amounts are
      not added up. */
  lemma {:induction false} MissedOverwritesUsed(used: seq<Ingredient>, missed: seq<Ingredient>, name: string)
    requires name in RecordNames(used + missed)
    ensures name in RecordNames(missed) ==> LastAmount(used + missed, name) == LastAmount(missed, name)
    ensures name !in RecordNames(missed) ==> name in RecordNames(used) && LastAmount(used + missed, name) == LastAmount(used, name)
  {
    if missed == [] {
      assert used + missed == used;
    } else {
      var n := |missed|;
      assert (used + missed)[..|used| + n - 1] == used + missed[..n - 1];
      assert RecordNames(missed) == RecordNames(missed[..n - 1]) + [missed[n - 1].originalName];
      if missed[n - 1].originalName != name {
        assert used + missed == (used + missed[..n - 1]) + [missed[n - 1]];
        RecordNamesAppend(used + missed[..n - 1], missed[n - 1]);
        LastAmountAppend(used + missed[..n - 1], missed[n - 1], name);
        MissedOverwritesUsed(used, missed[..n - 1], name);
      }
    }
  }

  /** `people_count * amount`: the value one record stores in the table. */
  function Scale(count: int, amount: real): real {
    count as real * amount
  }

  /** `rows` is the table of `records` for `count` people: one row per
      distinct name, in first-seen order, holding `count` times the amount of
      the last record with that name. */
  ghost predicate Tabulates(rows: seq<Row>, records: seq<Ingredient>, count: int) {
    && Names(rows) == FirstSeen(RecordNames(records))
    && forall i :: 0 <= i < |rows| ==>
         rows[i].name in RecordNames(records) && rows[i].amount == Scale(count, LastAmount(records, rows[i].name))
  }

  lemma RecordNamesAppend(records: seq<Ingredient>, record: Ingredient)
    ensures RecordNames(records + [record]) == RecordNames(records) + [record.originalName]
  {
  }

  lemma FirstSeenAppend(names: seq<string>, x: string)
    ensures FirstSeen(names + [x]) == if x in FirstSeen(names) then FirstSeen(names) else FirstSeen(names) + [x]
  {
    assert (names + [x])[..|names|] == names;
  }

  lemma LastAmountAppend(records: seq<Ingredient>, record: Ingredient, name: string)
    requires name in RecordNames(records + [record])
    ensures name != record.originalName ==> name in RecordNames(records)
    ensures LastAmount(records + [record], name)
         == if name == record.originalName then record.amount else LastAmount(records, name)
  {
    RecordNamesAppend(records, record);
    assert (records + [record])[..|records|] == records;
  }

  /** One dictionary assignment extends the table by one record. */
  lemma TabulatesPut(rows: seq<Row>, records: seq<Ingredient>, record: Ingredient, count: int)
    requires Tabulates(rows, records, count)
    ensures Tabulates(Put(rows, record.originalName, Scale(count, record.amount)), records + [record], count)
  {
    var all := records + [record];
    var name := record.originalName;
    RecordNamesAppend(records, record);
    FirstSeenAppend(RecordNames(records), name);
    var r := Put(rows, name, Scale(count, record.amount));
    assert Names(r) == FirstSeen(RecordNames(all));
    forall i | 0 <= i < |r|
      ensures r[i].name in RecordNames(all) && r[i].amount == Scale(count, LastAmount(all, r[i].name))
    {
      LastAmountAppend(records, record, r[i].name);
      if r[i].name != name {
        assert r[i] == rows[i];
      }
    }
  }

  /** A table is determined by its records. */
  lemma TabulatesUnique(a: seq<Row>, b: seq<Row>, records: seq<Ingredient>, count: int)
    requires Tabulates(a, records, count) && Tabulates(b, records, count)
    ensures a == b
  {
    assert |a| == |Names(a)| == |Names(b)| == |b|;
    forall i | 0 <= i < |a| ensures a[i] == b[i] {
      assert Names(a)[i] == Names(b)[i];
    }
  }

  /** The dictionary `rows` after `rows[name] = count * amount` for every
      record in turn, first to last. */
  function Assign(rows: seq<Row>, records: seq<Ingredient>, count: int): seq<Row>
    decreases records
  {
    if records == [] then rows
    else Assign(Put(rows, records[0].originalName, Scale(count, records[0].amount)), records[1..], count)
  }

  /** Assigning one more record is one more Put. */
  lemma {:induction false} AssignSnoc(rows: seq<Row>, records: seq<Ingredient>, record: Ingredient, count: int)
    ensures Assign(rows, records + [record], count)
         == Put(Assign(rows, records, count), record.originalName, Scale(count, record.amount))
    decreases records
  {
    if records == [] {
      assert records + [record] == [record];
      assert [record][1..] == [];
    } else {
      assert (records + [record])[1..] == records[1..] + [record];
      AssignSnoc(Put(rows, records[0].originalName, Scale(count, records[0].amount)), records[1..], record, count);
    }
  }

  /** Assigning `a` and then `b` is assigning `a + b`. */
  lemma {:induction false} AssignConcat(rows: seq<Row>, a: seq<Ingredient>, b: seq<Ingredient>, count: int)
    ensures Assign(rows, a + b, count) == Assign(Assign(rows, a, count), b, count)
    decreases a
  {
    if a == [] {
      assert a + b == b;
    } else {
      assert (a + b)[1..] == a[1..] + b;
      AssignConcat(Put(rows, a[0].originalName, Scale(count, a[0].amount)), a[1..], b, count);
    }
  }

  /** The dictionary built from an empty one by assigning every record. */
  function Table(records: seq<Ingredient>, count: int): (rows: seq<Row>)
  {
    if records == [] then []
    else
      var last := records[|records| - 1];
      Put(Table(records[..|records| - 1], count), last.originalName, Scale(count, last.amount))
  }

  lemma {:induction false} AssignTable(records: seq<Ingredient>, count: int)
    ensures Assign([], records, count) == Table(records, count)
  {
    if records != [] {
      var init, last := records[..|records| - 1], records[|records| - 1];
      assert records == init + [last];
      AssignTable(init, count);
      AssignSnoc([], init, last, count);
    }
  }

  /** The table built by assignments is the table described by Tabulates. */
  lemma {:induction false} TableTabulates(records: seq<Ingredient>, count: int)
    ensures Tabulates(Table(records, count), records, count)
  {
    if records == [] {
      assert Names([]) == [] == FirstSeen(RecordNames([]));
    } else {
      var init, last := records[..|records| - 1], records[|records| - 1];
      assert records == init + [last];
      TableTabulates(init, count);
      TabulatesPut(Table(init, count), init, last, count);
    }
  }

  /** The table is empty exactly when there are no records. */
  lemma TabulatesEmpty(rows: seq<Row>, records: seq<Ingredient>, count: int)
    requires Tabulates(rows, records, count)
    ensures rows == [] <==> records == []
  {
    assert |rows| == |Names(rows)| == |FirstSeen(RecordNames(records))|;
    if records != [] {
      assert RecordNames(records)[0] in FirstSeen(RecordNames(records));
    }
  }

  /** The table of a recipe is described by Tabulates, and is empty exactly
      when the recipe has no used and no missed ingredients. */
  lemma RecipeTable(recipe: Recipe, count: int, rows: seq<Row>)
    requires rows == Assign(Assign([], OrEmpty(recipe.usedIngredients), count), OrEmpty(recipe.missedIngredients), count)
    ensures Tabulates(rows, ChartedIngredients(recipe), count)
    ensures ChartedIngredients(recipe) == [] <==> rows == []
  {
    var records := ChartedIngredients(recipe);
    AssignConcat([], OrEmpty(recipe.usedIngredients), OrEmpty(recipe.missedIngredients), count);
    AssignTable(records, count);
    TableTabulates(records, count);
    TabulatesEmpty(rows, records, count);
  }

  /** create_ingredients_dataframe: the table of the used and then the missed
      ingredients, each amount multiplied by the number of people. */
  method CreateIngredientsTable(peopleCount: int, recipe: Recipe) returns (table: seq<Row>)
    ensures Tabulates(table, ChartedIngredients(recipe), peopleCount)
    ensures ChartedIngredients(recipe) == [] <==> table == []
  {
    var used := OrEmpty(recipe.usedIngredients);
    var missed := OrEmpty(recipe.missedIngredients);
    var data: seq<Row> := [];
    for i := 0 to |used|
      invariant Assign(data, used[i..], peopleCount) == Assign([], used, peopleCount)
    {
      assert used[i..][1..] == used[i + 1..];
      data := Put(data, used[i].originalName, Scale(peopleCount, used[i].amount));
    }
    for j := 0 to |missed|
      invariant Assign(data, missed[j..], peopleCount) == Assign(Assign([], used, peopleCount), missed, peopleCount)
    {
      assert missed[j..][1..] == missed[j + 1..];
      data := Put(data, missed[j].originalName, Scale(peopleCount, missed[j].amount));
    }
    table := data;
    RecipeTable(recipe, peopleCount, table);
  }

  /** The scenario of a name both used and missed: used `flour` 1.0 and missed
      `flour` 0.5 for two people give one `flour` row of 1.0, not 3.0. */
  lemma FlourOverwrittenNotSummed(rows: seq<Row>)
    requires Tabulates(rows, [Ingredient("flour", 1.0), Ingredient("flour", 0.5)], 2)
    ensures rows == [Row("flour", 1.0)]
  {
    var records := [Ingredient("flour", 1.0), Ingredient("flour", 0.5)];
    assert RecordNames(records) == ["flour", "flour"];
    assert RecordNames(records)[..1] == ["flour"];
    assert FirstSeen(RecordNames(records)) == ["flour"];
    LastAmountIsLast(records, "flour", 1);
  }
}

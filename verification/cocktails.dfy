/** The cocktail reference list: seeded by `init_db` when the table is empty,
    read by `get_cocktail_recipes`, written by nothing else. */
module Cocktails {
  import opened Tables
  import opened Collation
  import opened Sorting
  import opened Store

  /** The four reference rows `init_db` inserts, in insertion order. */
  const Seed: seq<Recipe> := [
    Recipe("Mojito", "Nane yaprakları, lime, şeker, rom, soda",
           "10 nane yaprağı, 1/2 lime, 2 tsp şeker, 60ml beyaz rom, soda"),
    Recipe("Piña Colada", "Ananas suyu, hindistan cevizi kremi, rom",
           "90ml ananas suyu, 30ml hindistan cevizi kremi, 60ml beyaz rom, buz"),
    Recipe("Margarita", "Tequila, lime suyu, triple sec",
           "60ml tequila, 30ml lime suyu, 30ml triple sec, tuz kenarı"),
    Recipe("Cosmopolitan", "Vodka, cranberry suyu, lime suyu, triple sec",
           "45ml vodka, 15ml cranberry suyu, 15ml lime suyu, 15ml triple sec")
  ]

  /** `executemany` of one INSERT: the values go in one after another. */
  function InsertAll<T>(t: Table<T>, vs: seq<T>): (r: Table<T>)
    ensures |r.rows| == |t.rows| + |vs| && r.rows[..|t.rows|] == t.rows
    ensures forall k | 0 <= k < |vs| :: r.rows[|t.rows| + k] == Row(t.nextId + k, vs[k])
    ensures r.nextId == t.nextId + |vs|
    ensures WellFormed(t) ==> WellFormed(r)
    decreases |vs|
  {
    if |vs| == 0 then
      t
    else
      var r := InsertAll(Insert(t, vs[0]), vs[1..]);
      assert forall k | 1 <= k < |vs| :: vs[k] == vs[1..][k - 1];
      assert r.rows[..|t.rows|] == r.rows[..|t.rows| + 1][..|t.rows|];
      r
  }

  /** `init_db` once the five tables exist: seed the reference list when
      `SELECT COUNT(*) FROM cocktail_recipes` is zero, otherwise do nothing. */
  function InitDb(s: Store): (r: Store)
    ensures r.faults == s.faults && r.shifts == s.shifts && r.services == s.services && r.menus == s.menus
    ensures |s.recipes.rows| > 0 ==> r == s
    ensures |s.recipes.rows| == 0 ==>
              && |r.recipes.rows| == |Seed|
              && forall k | 0 <= k < |Seed| :: r.recipes.rows[k] == Row(s.recipes.nextId + k, Seed[k])
    ensures |r.recipes.rows| > 0
    ensures Valid(s) ==> Valid(r)
  {
    if |s.recipes.rows| == 0 then s.(recipes := InsertAll(s.recipes, Seed)) else s
  }

  /** Initializing an initialized database changes nothing: the list is seeded once. */
  lemma InitIdempotent(s: Store)
    ensures InitDb(InitDb(s)) == InitDb(s)
  {
  }

  /** The `name` column, the key of `ORDER BY name`. */
  function RecipeName(x: Row<Recipe>): string {
    x.val.name
  }

  /** `get_cocktail_recipes`: every recipe, by name. */
  function CocktailRecipes(s: Store): (r: seq<Row<Recipe>>)
    ensures SortedBy(r, RecipeName, false)
    ensures multiset(r) == multiset(s.recipes.rows)
  {
    SortBy(s.recipes.rows, RecipeName, false)
  }

  /** The reference rows, with the ids seeding from counter `n` gives them, in name order. */
  function SeedByName(n: int): seq<Row<Recipe>> {
    [Row(n + 3, Seed[3]), Row(n + 2, Seed[2]), Row(n, Seed[0]), Row(n + 1, Seed[1])]
  }

  lemma SeedNameOrder(n: int)
    ensures SortedBy(SeedByName(n), RecipeName, false)
    ensures forall i, j | 0 <= i < j < 4 :: RecipeName(SeedByName(n)[i]) != RecipeName(SeedByName(n)[j])
  {
    var expected := SeedByName(n);
    assert RecipeName(expected[0]) == "Cosmopolitan";
    assert RecipeName(expected[1]) == "Margarita";
    assert RecipeName(expected[2]) == "Mojito";
    assert RecipeName(expected[3]) == "Piña Colada";
    // Each neighbour pair is decided at its first differing letter.
    assert TextLe("Cosmopolitan", "Margarita");
    assert TextLe("argarita", "ojito");
    assert TextLe("Margarita", "Mojito");
    assert TextLe("Mojito", "Piña Colada");
    ChainSorted(expected, RecipeName, false);
  }

  /** Seeding stores exactly the rows of `SeedByName`, in insertion order. */
  lemma SeededMultiset(s: Store)
    requires |s.recipes.rows| == 0
    ensures multiset(SeedByName(s.recipes.nextId)) == multiset(InitDb(s).recipes.rows)
  {
    SeededRows(s);
    var rows := InitDb(s).recipes.rows;
    assert SeedByName(s.recipes.nextId) == [rows[3], rows[2], rows[0], rows[1]];
    Rearranged(rows);
  }

  lemma Rearranged<T>(r: seq<T>)
    requires |r| == 4
    ensures multiset([r[3], r[2], r[0], r[1]]) == multiset(r)
  {
    var front, back := r[..2], r[2..];
    assert r == front + back;
    var swapped := [r[3], r[2]];
    assert multiset(swapped) == multiset(back) by {
      assert swapped == [back[1]] + [back[0]] && back == [back[0]] + [back[1]];
    }
    assert [r[3], r[2], r[0], r[1]] == swapped + front;
  }

  lemma SeededRows(s: Store)
    requires |s.recipes.rows| == 0
    ensures var n := s.recipes.nextId;
            InitDb(s).recipes.rows == [Row(n, Seed[0]), Row(n + 1, Seed[1]), Row(n + 2, Seed[2]), Row(n + 3, Seed[3])]
  {
    var n := s.recipes.nextId;
    var rows := InitDb(s).recipes.rows;
    assert |rows| == 4;
    assert rows[0] == Row(n, Seed[0]) && rows[1] == Row(n + 1, Seed[1]);
    assert rows[2] == Row(n + 2, Seed[2]) && rows[3] == Row(n + 3, Seed[3]);
  }

  /** Right after seeding, the list reads back as Cosmopolitan, Margarita, Mojito,
      Piña Colada: the names are distinct, so `ORDER BY name` fixes the order. */
  lemma SeededListing(s: Store)
    requires |s.recipes.rows| == 0
    ensures CocktailRecipes(InitDb(s)) == SeedByName(s.recipes.nextId)
  {
    var n := s.recipes.nextId;
    SeededMultiset(s);
    SeedNameOrder(n);
    ListingDetermined(InitDb(s), SeedByName(n));
  }

  /** A sorted arrangement of recipes with distinct names is the listing. */
  lemma ListingDetermined(s: Store, expected: seq<Row<Recipe>>)
    requires multiset(expected) == multiset(s.recipes.rows)
    requires SortedBy(expected, RecipeName, false)
    requires forall i, j | 0 <= i < j < |expected| :: RecipeName(expected[i]) != RecipeName(expected[j])
    ensures CocktailRecipes(s) == expected
  {
    SortedDistinctUnique(expected, CocktailRecipes(s), RecipeName, false);
  }
}

/**
 * appx RecipeDatabase: the recipe store with an inverted word index, a
 * name-sorted listing, conjunctive search, lookup by id and a favourites set.
 * The Java class keeps its state in static fields behind a lazily created
 * singleton; here it is one instance of a class whose fields the methods
 * update.
 */
module Database {
  import opened Optional
  import opened JavaLang
  import opened TreeMaps
  import opened WordIndex

  /** One itemised ingredient, e.g. 1-1/4 Tablespoon Sugar. */
  datatype RecipeIngredient = RecipeIngredient(amount: string, measurement: string, ingredientName: string)

  /** One instruction of a recipe. */
  datatype RecipeDirection = RecipeDirection(direction: string)

  datatype Recipe = Recipe(name: string, recipeId: int, ingredients: seq<RecipeIngredient>,
                           directions: seq<RecipeDirection>)

  function NameOf(r: Recipe): string { r.name }

  function IdOf(r: Recipe): int { r.recipeId }

  /** The words indexed for the ingredient names of a list, in list order. */
  function IngredientWords(ingredients: seq<RecipeIngredient>): set<string>
    decreases |ingredients|
  {
    if ingredients == [] then {}
    else IngredientWords(ingredients[..|ingredients| - 1]) + Words(ingredients[|ingredients| - 1].ingredientName)
  }

  /** The words addRecipe indexes a recipe under: those of its name and of each ingredient name. */
  function RecipeWords(r: Recipe): set<string>
  {
    Words(r.name) + IngredientWords(r.ingredients)
  }

  // ---------------------------------------------------------------------------
  // Favourites serialisation: a space-separated list of Integer.valueOf tokens.
  // ---------------------------------------------------------------------------

  /** How many leading tokens Integer.valueOf accepts before the first it refuses. */
  function ParsablePrefix(toks: seq<string>): (n: nat)
    ensures n <= |toks|
    ensures forall i :: 0 <= i < n ==> ParseInt(toks[i]).Some?
    ensures n < |toks| ==> ParseInt(toks[n]).None?
    decreases |toks|
  {
    if toks == [] || ParseInt(toks[0]).None? then 0 else 1 + ParsablePrefix(toks[1..])
  }

  /** The ints a list of parsable tokens stands for. */
  function ParsedIds(toks: seq<string>): set<int>
    requires forall i :: 0 <= i < |toks| ==> ParseInt(toks[i]).Some?
    decreases |toks|
  {
    if toks == [] then {}
    else ParsedIds(toks[..|toks| - 1]) + {ParseInt(toks[|toks| - 1]).value}
  }

  lemma {:induction false} ParsablePrefixAll(toks: seq<string>)
    requires forall i :: 0 <= i < |toks| ==> ParseInt(toks[i]).Some?
    ensures ParsablePrefix(toks) == |toks|
    decreases |toks|
  {
    if toks != [] {
      ParsablePrefixAll(toks[1..]);
    }
  }

  /** One more parsable token adds its int. */
  lemma ParsedIdsSnoc(toks: seq<string>, j: nat)
    requires j < |toks|
    requires forall i :: 0 <= i <= j ==> ParseInt(toks[i]).Some?
    ensures ParsedIds(toks[..j + 1]) == ParsedIds(toks[..j]) + {ParseInt(toks[j]).value}
  {
    assert toks[..j + 1][..j] == toks[..j];
  }

  lemma {:induction false} ParsablePrefixStops(toks: seq<string>, j: nat)
    requires j < |toks|
    requires forall i :: 0 <= i < j ==> ParseInt(toks[i]).Some?
    requires ParseInt(toks[j]).None?
    ensures ParsablePrefix(toks) == j
    decreases j
  {
    if j > 0 {
      ParsablePrefixStops(toks[1..], j - 1);
    }
  }

  lemma {:induction false} ParsedIdsOf(toks: seq<string>, ids: seq<int>)
    requires |toks| == |ids|
    requires forall i :: 0 <= i < |toks| ==> ParseInt(toks[i]) == Some(ids[i])
    ensures ParsedIds(toks) == set v | v in ids
    decreases |toks|
  {
    if toks != [] {
      var n := |toks| - 1;
      ParsedIdsOf(toks[..n], ids[..n]);
      assert ids == ids[..n] + [ids[n]];
      assert (set v | v in ids) == (set v | v in ids[..n]) + {ids[n]};
    }
  }

  /** A favourites string in the form loadFavorites reads: the ids, space-separated. */
  function SerializeIds(ids: seq<int>): string
    requires |ids| >= 1
  {
    Join(seq(|ids|, i requires 0 <= i < |ids| => IntToString(ids[i])))
  }

  /** An empty favourites string is one empty token, which Integer.valueOf refuses. */
  lemma EmptyFavoritesRefused()
    ensures Split("") == [""] && ParsablePrefix(Split("")) == 0
  {
    assert Split("") == [""];
  }

  /** Reading back a serialised id list yields exactly its ids. */
  lemma SerializedIdsRoundTrip(ids: seq<int>)
    requires |ids| >= 1
    requires forall i :: 0 <= i < |ids| ==> INT_MIN <= ids[i] <= INT_MAX
    ensures var toks := Split(SerializeIds(ids));
      ParsablePrefix(toks) == |toks| && ParsedIds(toks) == set i | i in ids
  {
    var strs := seq(|ids|, i requires 0 <= i < |ids| => IntToString(ids[i]));
    SplitJoin(strs);
    var toks := Split(SerializeIds(ids));
    assert toks == strs;
    forall i | 0 <= i < |ids|
      ensures ParseInt(toks[i]) == Some(ids[i])
    {
      ParseIntToString(ids[i]);
    }
    ParsablePrefixAll(toks);
    assert toks[..|toks|] == toks;
    ParsedIdsOf(toks, ids);
  }

  class RecipeDatabase {
    /** search word -> ids of the recipes indexed under it */
    var indexMap: Index
    /** id -> recipe */
    var idMap: map<int, Recipe>
    /** ids of the favourite recipes */
    var favorites: set<int>
    /** the next id to hand out */
    var recipeCounter: int

    /**
     * The ids in idMap are exactly 0 .. recipeCounter - 1, each recipe carries
     * its own id, and the index posts exactly the stored ids under exactly
     * their recipes' words (so idMap.get(i) never fails during a search).
     */
    ghost predicate Valid()
      reads this
    {
      && recipeCounter >= 0
      && (forall i :: i in idMap <==> 0 <= i < recipeCounter)
      && (forall i :: i in idMap ==> idMap[i].recipeId == i)
      && IndexExact(indexMap, idMap, RecipeWords)
    }

    /** Distinct ids hold distinct recipes, since each recipe carries its id. */
    lemma IdsDistinguish()
      requires Valid()
      ensures forall x, y :: x in idMap && y in idMap && idMap[x] == idMap[y] ==> x == y
    {
    }

    /** r is the recipe stored under its own id. */
    ghost predicate Stored(r: Recipe)
      reads this
    {
      r.recipeId in idMap && idMap[r.recipeId] == r
    }

    constructor()
      ensures Valid()
      ensures indexMap == map[] && idMap == map[] && favorites == {} && recipeCounter == 0
    {
      new;
      ResetDatabase();
    }

    method ResetDatabase()
      modifies this
      ensures Valid()
      ensures indexMap == map[] && idMap == map[] && favorites == {} && recipeCounter == 0
    {
      indexMap := map[];
      idMap := map[];
      favorites := {};
      recipeCounter := 0;
    }

    /**
     * addRecipe: a null recipe changes nothing; otherwise the recipe gets the
     * next id, is stored under it and is indexed under its name's words and
     * then each ingredient name's words. The recipe as stored is returned.
     */
    method AddRecipe(newRecipe: Option<Recipe>) returns (stored: Option<Recipe>)
      requires Valid()
      modifies this
      ensures Valid()
      ensures newRecipe.None? ==> stored.None? && unchanged(this)
      ensures newRecipe.Some? ==>
        && stored == Some(newRecipe.value.(recipeId := old(recipeCounter)))
        && recipeCounter == old(recipeCounter) + 1
        && idMap == old(idMap)[old(recipeCounter) := stored.value]
        && indexMap == Posted(old(indexMap), RecipeWords(stored.value), old(recipeCounter))
        && favorites == old(favorites)
      ensures newRecipe.Some? ==>
        forall w :: w in RecipeWords(stored.value) ==> w in indexMap && old(recipeCounter) in indexMap[w]
      ensures forall w :: w in old(indexMap) ==> w in indexMap && old(indexMap)[w] <= indexMap[w]
    {
      if newRecipe.None? {
        return None;
      }
      var recipe := newRecipe.value.(recipeId := recipeCounter);
      recipeCounter := recipeCounter + 1;
      PostedKeepsExact(indexMap, idMap, RecipeWords, recipe.recipeId, recipe);
      idMap := idMap[recipe.recipeId := recipe];
      ghost var idx0 := indexMap;
      Index(recipe.name, recipe);
      IndexIngredients(recipe.ingredients, recipe);
      PostedUnion(idx0, Words(recipe.name), IngredientWords(recipe.ingredients), recipe.recipeId);
      PostedFacts(idx0, RecipeWords(recipe), recipe.recipeId);
      stored := Some(recipe);
    }

    /** The ingredient loop of addRecipe: index each ingredient name in turn. */
    method IndexIngredients(ingredients: seq<RecipeIngredient>, recipe: Recipe)
      modifies this`indexMap
      ensures indexMap == Posted(old(indexMap), IngredientWords(ingredients), recipe.recipeId)
    {
      PostedNone(indexMap, recipe.recipeId);
      for k := 0 to |ingredients|
        invariant indexMap == Posted(old(indexMap), IngredientWords(ingredients[..k]), recipe.recipeId)
      {
        Index(ingredients[k].ingredientName, recipe);
        PostedUnion(old(indexMap), IngredientWords(ingredients[..k]),
                    Words(ingredients[k].ingredientName), recipe.recipeId);
        assert ingredients[..k + 1][..k] == ingredients[..k];
      }
      assert ingredients[..|ingredients|] == ingredients;
    }

    /** index: post the recipe's id under every lower-cased split(" ") word of text. */
    method Index(text: string, recipe: Recipe)
      modifies this`indexMap
      ensures indexMap == Posted(old(indexMap), Words(text), recipe.recipeId)
    {
      indexMap := AddWords(indexMap, text, recipe.recipeId);
    }

    /** allRecipes: every stored recipe exactly once, by name. */
    method AllRecipes() returns (result: seq<Recipe>)
      requires Valid()
      ensures forall r :: r in result <==> Stored(r)
      ensures Distinct(result)
      ensures SortedBy(result, NameOf)
    {
      // maps recipe name to the set of its ids; the TreeMap orders the names
      var sortedMap := GroupByName(idMap.Keys, idMap, NameOf);
      IdsDistinguish();
      assert forall x, y :: x in idMap && y in idMap && idMap[x] == idMap[y] ==> x == y;
      result := FlattenSets(sortedMap, idMap, NameOf);
      forall r | r in result
        ensures Stored(r)
      {
        assert r in idMap.Values;
        var i :| i in idMap && idMap[i] == r;
      }
    }

    /**
     * searchRecipes: null for a null query; otherwise each stored recipe
     * whose words include every distinct lower-cased query word, once, by name.
     * A query that splits into no words matches nothing.
     */
    method SearchRecipes(searchString: Option<string>) returns (result: Option<seq<Recipe>>)
      requires Valid()
      ensures searchString.None? <==> result.None?
      ensures searchString.Some? ==>
        var terms := Terms(searchString.value);
        && (forall r :: r in result.value <==> Stored(r) && terms != {} && terms <= RecipeWords(r))
        && Distinct(result.value)
        && SortedBy(result.value, NameOf)
    {
      if searchString.None? {
        return None;
      }
      ExactPostingsStored(indexMap, idMap, RecipeWords);
      var found := Search(indexMap, idMap, IdOf, NameOf, searchString.value);
      ghost var terms := Terms(searchString.value);
      forall r | Stored(r)
        ensures Matches(indexMap, terms, r.recipeId) <==> terms != {} && terms <= RecipeWords(r)
      {
        ExactMatches(indexMap, idMap, RecipeWords, terms, r.recipeId);
      }
      result := Some(found);
    }

    /** findRecipeById: null for a negative id, otherwise whatever idMap holds. */
    function FindRecipeById(recipeId: int): (r: Option<Recipe>)
      reads this
      ensures recipeId < 0 ==> r.None?
      ensures Valid() ==> (r.Some? <==> 0 <= recipeId < recipeCounter)
      ensures Valid() && r.Some? ==> r.value.recipeId == recipeId && Stored(r.value)
    {
      if recipeId < 0 then None
      else if recipeId in idMap then Some(idMap[recipeId])
      else None
    }

    /**
     * loadFavorites: null is ignored; otherwise each split(" ") token is
     * parsed in turn and added. A token Integer.valueOf refuses throws
     * (ok == false), leaving the ids parsed before it added. Nothing is
     * removed and nothing is checked against idMap.
     */
    method LoadFavorites(serializedFavorites: Option<string>) returns (ok: bool)
      modifies this`favorites
      ensures serializedFavorites.None? ==> ok && favorites == old(favorites)
      ensures serializedFavorites.Some? ==>
        var toks := Split(serializedFavorites.value);
        && favorites == old(favorites) + ParsedIds(toks[..ParsablePrefix(toks)])
        && (ok <==> ParsablePrefix(toks) == |toks|)
    {
      if serializedFavorites.None? {
        return true;
      }
      var deserialized := Split(serializedFavorites.value);
      for j := 0 to |deserialized|
        invariant forall i :: 0 <= i < j ==> ParseInt(deserialized[i]).Some?
        invariant favorites == old(favorites) + ParsedIds(deserialized[..j])
      {
        var v := ParseInt(deserialized[j]);
        if v.None? {
          // NumberFormatException
          ParsablePrefixStops(deserialized, j);
          return false;
        }
        ParsedIdsSnoc(deserialized, j);
        favorites := favorites + {v.value};
      }
      ParsablePrefixAll(deserialized);
      assert deserialized[..|deserialized|] == deserialized;
      return true;
    }

    /** isFavorite: membership in the favourites set. */
    function IsFavorite(recipeId: int): (b: bool)
      reads this
      ensures b <==> recipeId in favorites
    {
      recipeId in favorites
    }

    /**
     * getFavorites: the favourite recipes, once each, by name. A favourite id
     * with no recipe makes idMap.get return null and the name lookup throw
     * (None); the ids are held per name as the recipes' ids.
     */
    method GetFavorites() returns (result: Option<seq<Recipe>>)
      requires Valid()
      ensures result.None? <==> !(favorites <= idMap.Keys)
      ensures result.Some? ==>
        && (forall r :: r in result.value <==> Stored(r) && r.recipeId in favorites)
        && Distinct(result.value)
        && SortedBy(result.value, NameOf)
    {
      if !(favorites <= idMap.Keys) {
        // NullPointerException at recipe.name, whatever the iteration order
        return None;
      }
      var resultMap := GroupByName(favorites, idMap, NameOf);
      IdsDistinguish();
      assert forall x, y :: x in idMap && y in idMap && idMap[x] == idMap[y] ==> x == y;
      var list := FlattenSets(resultMap, idMap, NameOf);
      forall r | r in list
        ensures Stored(r)
      {
        assert r in idMap.Values;
        var i :| i in idMap && idMap[i] == r;
      }
      result := Some(list);
    }
  }

  /**
   * Favourites written out as space-separated ids and loaded into a fresh
   * database are read back whole: loading succeeds and isFavorite holds
   * for exactly those ids.
   */
  method LoadSerializedFavorites(ids: seq<int>) returns (db: RecipeDatabase, ok: bool)
    requires |ids| >= 1
    requires forall i :: 0 <= i < |ids| ==> INT_MIN <= ids[i] <= INT_MAX
    ensures fresh(db) && db.Valid()
    ensures ok
    ensures forall id :: db.IsFavorite(id) <==> id in ids
  {
    db := new RecipeDatabase();
    ok := db.LoadFavorites(Some(SerializeIds(ids)));
    SerializedIdsRoundTrip(ids);
    var toks := Split(SerializeIds(ids));
    assert toks[..|toks|] == toks;
  }
}

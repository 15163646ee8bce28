/**
 * appx RecipeBase: the instance-field revision of the recipe store. Besides
 * the word index and the id map it keeps every recipe in a name-keyed
 * TreeMap of lists, so the full listing is ordered by name and, within a
 * name, by insertion (that is, by ascending id).
 */
module Base {
  import opened Optional
  import opened JavaLang
  import opened TreeMaps
  import opened WordIndex

  /** A Java float, kept as its 32-bit pattern: it is stored but never computed with. */
  datatype Float = Float(bits: bv32)

  /** One itemised ingredient, e.g. 1.25 Tablespoon Sugar. */
  datatype RecipeIngredient = RecipeIngredient(amount: Float, measurement: string, ingredientName: string)

  /** One instruction of a recipe. */
  datatype Direction = Direction(direction: string)

  datatype Recipe = Recipe(name: string, recipeId: int, timeRequiredInMin: int,
                           recipeIngredients: seq<RecipeIngredient>, directions: seq<Direction>)

  function NameOf(r: Recipe): string { r.name }

  function IdOf(r: Recipe): int { r.recipeId }

  /** The words indexed for the ingredient names of a list, in list order. */
  function IngredientWords(ingredients: seq<RecipeIngredient>): set<string>
    decreases |ingredients|
  {
    if ingredients == [] then {}
    else IngredientWords(ingredients[..|ingredients| - 1]) + Words(ingredients[|ingredients| - 1].ingredientName)
  }

  /** The words addRecipe indexes a recipe under: those of its name and of each ingredient name. */
  function RecipeWords(r: Recipe): set<string>
  {
    Words(r.name) + IngredientWords(r.recipeIngredients)
  }

  /** The list a name maps to, empty when the name has none yet. */
  function ListOf(recipeMap: map<string, seq<Recipe>>, name: string): seq<Recipe>
  {
    if name in recipeMap then recipeMap[name] else []
  }

  /** recipeMap after recipeMap.get(name).add(recipe), the list created first if missing. */
  function Appended(recipeMap: map<string, seq<Recipe>>, recipe: Recipe): (r: map<string, seq<Recipe>>)
    ensures r.Keys == recipeMap.Keys + {recipe.name}
    ensures forall k :: k in recipeMap && k != recipe.name ==> r[k] == recipeMap[k]
    ensures r[recipe.name] == ListOf(recipeMap, recipe.name) + [recipe]
  {
    recipeMap[recipe.name := ListOf(recipeMap, recipe.name) + [recipe]]
  }

  /** The two-step update of addRecipe (create the list if missing, then add) is Appended. */
  lemma AppendedByUpdate(recipeMap: map<string, seq<Recipe>>, recipe: Recipe, updated: map<string, seq<Recipe>>)
    requires var m := if recipe.name in recipeMap then recipeMap else recipeMap[recipe.name := []];
      updated == m[recipe.name := m[recipe.name] + [recipe]]
    ensures updated == Appended(recipeMap, recipe)
  {
    if recipe.name !in recipeMap {
      var m := recipeMap[recipe.name := []];
      assert m[recipe.name := [recipe]] == recipeMap[recipe.name := [recipe]];
    }
  }

  /**
   * recipeMap lists every recipe of idMap under its own name and nothing else,
   * each list in ascending id order; slot[i] is where recipe i sits in its list.
   */
  ghost predicate ListsValid(recipeMap: map<string, seq<Recipe>>, idMap: map<int, Recipe>, slot: map<int, nat>) {
    && Grouped(recipeMap, NameOf)
    && (forall k :: k in recipeMap ==> Ranked(recipeMap[k], IdOf))
    && (forall k, j :: k in recipeMap && 0 <= j < |recipeMap[k]| ==>
          recipeMap[k][j].recipeId in idMap && idMap[recipeMap[k][j].recipeId] == recipeMap[k][j])
    && (forall i :: i in idMap ==>
          i in slot && idMap[i].name in recipeMap && slot[i] < |recipeMap[idMap[i].name]| &&
          recipeMap[idMap[i].name][slot[i]] == idMap[i])
  }

  /** Appending a recipe whose id is above every stored id keeps the lists valid. */
  lemma AppendKeepsLists(recipeMap: map<string, seq<Recipe>>, idMap: map<int, Recipe>, slot: map<int, nat>,
                         recipe: Recipe)
    requires ListsValid(recipeMap, idMap, slot)
    requires forall i :: i in idMap ==> idMap[i].recipeId == i && i < recipe.recipeId
    ensures ListsValid(Appended(recipeMap, recipe), idMap[recipe.recipeId := recipe],
                       slot[recipe.recipeId := |ListOf(recipeMap, recipe.name)|])
  {
    var after: map<string, seq<Recipe>> := Appended(recipeMap, recipe);
    var ids: map<int, Recipe> := idMap[recipe.recipeId := recipe];
    var list := ListOf(recipeMap, recipe.name);
    AppendedList(recipeMap, idMap, recipe);
    forall k, j | k in after && 0 <= j < |after[k]|
      ensures after[k][j].recipeId in ids && ids[after[k][j].recipeId] == after[k][j]
    {
      if k != recipe.name {
        assert after[k][j] == recipeMap[k][j];
      } else if j < |list| {
        assert after[k][j] == list[j];
      }
    }
  }

  /** The list recipe is appended to stays grouped and ranked. */
  lemma AppendedList(recipeMap: map<string, seq<Recipe>>, idMap: map<int, Recipe>, recipe: Recipe)
    requires Grouped(recipeMap, NameOf)
    requires forall k :: k in recipeMap ==> Ranked(recipeMap[k], IdOf)
    requires forall k, j :: k in recipeMap && 0 <= j < |recipeMap[k]| ==>
      recipeMap[k][j].recipeId in idMap
    requires forall i :: i in idMap ==> i < recipe.recipeId
    ensures var list := ListOf(recipeMap, recipe.name) + [recipe];
      (forall j :: 0 <= j < |list| ==> list[j].name == recipe.name) && Ranked(list, IdOf)
  {
    var list := ListOf(recipeMap, recipe.name);
    forall j | 0 <= j < |list|
      ensures list[j].recipeId < recipe.recipeId
    {
      assert list[j].recipeId in idMap;
    }
  }

  /**
   * The ids in idMap are exactly 0 .. recipeCounter - 1, each recipe carries
   * its own id, the index posts exactly the stored ids under exactly their
   * recipes' words, and recipeMap lists exactly the stored recipes.
   */
  ghost predicate BaseValid(recipeMap: map<string, seq<Recipe>>, indexMap: Index,
                            idMap: map<int, Recipe>, slot: map<int, nat>, recipeCounter: int) {
    && recipeCounter >= 0
    && (forall i :: i in idMap <==> 0 <= i < recipeCounter)
    && (forall i :: i in idMap ==> idMap[i].recipeId == i)
    && IndexExact(indexMap, idMap, RecipeWords)
    && ListsValid(recipeMap, idMap, slot)
  }

  /** Adding a recipe under the next id, indexed and listed, keeps the store valid. */
  lemma AddKeepsValid(recipeMap: map<string, seq<Recipe>>, indexMap: Index,
                      idMap: map<int, Recipe>, slot: map<int, nat>, recipeCounter: int, recipe: Recipe)
    requires BaseValid(recipeMap, indexMap, idMap, slot, recipeCounter)
    requires recipe.recipeId == recipeCounter
    ensures BaseValid(Appended(recipeMap, recipe), Posted(indexMap, RecipeWords(recipe), recipeCounter),
                      idMap[recipeCounter := recipe], slot[recipeCounter := |ListOf(recipeMap, recipe.name)|],
                      recipeCounter + 1)
  {
    var ids := idMap[recipeCounter := recipe];
    NextIdKeepsRange(idMap, recipeCounter, recipe, ids);
    assert ListsValid(Appended(recipeMap, recipe), ids, slot[recipeCounter := |ListOf(recipeMap, recipe.name)|]) by {
      AppendKeepsLists(recipeMap, idMap, slot, recipe);
    }
    assert IndexExact(Posted(indexMap, RecipeWords(recipe), recipeCounter), ids, RecipeWords) by {
      assert recipeCounter !in idMap;
      PostedKeepsExact(indexMap, idMap, RecipeWords, recipeCounter, recipe);
    }
  }

  /** The next id extends the id range 0 .. recipeCounter - 1 by one. */
  lemma NextIdKeepsRange(idMap: map<int, Recipe>, recipeCounter: int, recipe: Recipe, ids: map<int, Recipe>)
    requires ids == idMap[recipeCounter := recipe]
    requires recipeCounter >= 0
    requires forall i :: i in idMap <==> 0 <= i < recipeCounter
    requires forall i :: i in idMap ==> idMap[i].recipeId == i
    requires recipe.recipeId == recipeCounter
    ensures forall i :: i in ids <==> 0 <= i < recipeCounter + 1
    ensures forall i :: i in ids ==> ids[i].recipeId == i
  {
  }

  class RecipeBase {
    /** recipe name -> the recipes of that name, in insertion order */
    var recipeMap: map<string, seq<Recipe>>
    /** search word -> ids of the recipes indexed under it */
    var indexMap: Index
    /** id -> recipe */
    var idMap: map<int, Recipe>
    /** the next id to hand out */
    var recipeCounter: int
    /** where each stored recipe sits in its name's list */
    ghost var slot: map<int, nat>

    /**
     * As for RecipeDatabase, plus: recipeMap lists every stored recipe under
     * its own name, nothing else, and each list in ascending id order.
     */
    ghost predicate Valid()
      reads this
    {
      BaseValid(recipeMap, indexMap, idMap, slot, recipeCounter)
    }

    /** r is the recipe stored under its own id. */
    ghost predicate Stored(r: Recipe)
      reads this
    {
      r.recipeId in idMap && idMap[r.recipeId] == r
    }

    constructor()
      ensures Valid()
      ensures recipeMap == map[] && indexMap == map[] && idMap == map[] && recipeCounter == 0
    {
      recipeMap := map[];
      indexMap := map[];
      idMap := map[];
      recipeCounter := 0;
      slot := map[];
    }

    /**
     * addRecipe: a null recipe changes nothing; otherwise the recipe gets the
     * next id, is stored and indexed as in RecipeDatabase, and is appended to
     * the list of its name.
     */
    method AddRecipe(newRecipe: Option<Recipe>) returns (stored: Option<Recipe>)
      requires Valid()
      modifies this
      ensures Valid()
      ensures newRecipe.None? ==> stored.None? && unchanged(this)
      ensures newRecipe.Some? ==>
        && stored == Some(newRecipe.value.(recipeId := old(recipeCounter)))
        && recipeCounter == old(recipeCounter) + 1
        && idMap == old(idMap)[old(recipeCounter) := stored.value]
        && indexMap == Posted(old(indexMap), RecipeWords(stored.value), old(recipeCounter))
        && recipeMap == Appended(old(recipeMap), stored.value)
      ensures newRecipe.Some? ==>
        forall w :: w in RecipeWords(stored.value) ==> w in indexMap && old(recipeCounter) in indexMap[w]
      ensures forall w :: w in old(indexMap) ==> w in indexMap && old(indexMap)[w] <= indexMap[w]
    {
      if newRecipe.None? {
        return None;
      }
      var recipe := newRecipe.value.(recipeId := recipeCounter);
      AddKeepsValid(recipeMap, indexMap, idMap, slot, recipeCounter, recipe);
      slot := slot[recipe.recipeId := |ListOf(recipeMap, recipe.name)|];
      recipeCounter := recipeCounter + 1;
      idMap := idMap[recipe.recipeId := recipe];
      ghost var idx0 := indexMap;
      Index(recipe.name, recipe);
      IndexIngredients(recipe.recipeIngredients, recipe);
      PostedUnion(idx0, Words(recipe.name), IngredientWords(recipe.recipeIngredients), recipe.recipeId);
      PostedFacts(idx0, RecipeWords(recipe), recipe.recipeId);
      ghost var map0 := recipeMap;
      if recipe.name !in recipeMap {
        recipeMap := recipeMap[recipe.name := []];
      }
      recipeMap := recipeMap[recipe.name := recipeMap[recipe.name] + [recipe]];
      AppendedByUpdate(map0, recipe, recipeMap);
      stored := Some(recipe);
    }

    /** index: post the recipe's id under every lower-cased split(" ") word of text. */
    method Index(text: string, recipe: Recipe)
      modifies this`indexMap
      ensures indexMap == Posted(old(indexMap), Words(text), recipe.recipeId)
    {
      indexMap := AddWords(indexMap, text, recipe.recipeId);
    }

    /** The ingredient loop of addRecipe: index each ingredient name in turn. */
    method IndexIngredients(ingredients: seq<RecipeIngredient>, recipe: Recipe)
      modifies this`indexMap
      ensures indexMap == Posted(old(indexMap), IngredientWords(ingredients), recipe.recipeId)
    {
      PostedNone(indexMap, recipe.recipeId);
      for k := 0 to |ingredients|
        invariant indexMap == Posted(old(indexMap), IngredientWords(ingredients[..k]), recipe.recipeId)
      {
        Index(ingredients[k].ingredientName, recipe);
        PostedUnion(old(indexMap), IngredientWords(ingredients[..k]),
                    Words(ingredients[k].ingredientName), recipe.recipeId);
        assert ingredients[..k + 1][..k] == ingredients[..k];
      }
      assert ingredients[..|ingredients|] == ingredients;
    }

    /**
     * getRecipes: every stored recipe exactly once, ordered by name and,
     * within a name, by ascending id (insertion order).
     */
    method GetRecipes() returns (result: seq<Recipe>)
      requires Valid()
      ensures forall r :: r in result <==> Stored(r)
      ensures Distinct(result)
      ensures SortedBy(result, NameOf)
      ensures RankedWithinNames(result, NameOf, IdOf)
    {
      forall k | k in recipeMap
        ensures Distinct(recipeMap[k])
      {
      }
      result := FlattenLists(recipeMap, NameOf, IdOf);
      forall r | Stored(r)
        ensures r in result
      {
        assert recipeMap[r.name][slot[r.recipeId]] == r;
      }
      forall r | r in result
        ensures Stored(r)
      {
        var j :| 0 <= j < |recipeMap[r.name]| && recipeMap[r.name][j] == r;
      }
    }

    /**
     * searchRecipes: null for a null query; otherwise each stored recipe
     * whose words include every distinct lower-cased query word, once, by name.
     */
    method SearchRecipes(searchString: Option<string>) returns (result: Option<seq<Recipe>>)
      requires Valid()
      ensures searchString.None? <==> result.None?
      ensures searchString.Some? ==>
        var terms := Terms(searchString.value);
        && (forall r :: r in result.value <==> Stored(r) && terms != {} && terms <= RecipeWords(r))
        && Distinct(result.value)
        && SortedBy(result.value, NameOf)
    {
      if searchString.None? {
        return None;
      }
      ExactPostingsStored(indexMap, idMap, RecipeWords);
      var found := Search(indexMap, idMap, IdOf, NameOf, searchString.value);
      ghost var terms := Terms(searchString.value);
      forall r | Stored(r)
        ensures Matches(indexMap, terms, r.recipeId) <==> terms != {} && terms <= RecipeWords(r)
      {
        ExactMatches(indexMap, idMap, RecipeWords, terms, r.recipeId);
      }
      result := Some(found);
    }
  }
}

/**
 * The recipe list screen of the appx app: which recipes an incoming intent
 * loads (a search, all recipes, the favourites or the shopping list), the
 * cooking-time text of a list row (without a guard for non-positive totals),
 * and the choice of what the right-hand side of a row shows.
 *
 * Searching and listing go to the recipe database of the Database module;
 * the favourite and shopping-list recipe lists come from database operations
 * that are not part of this model and are taken as parameters.
 */
module SelectRecipe {
  import opened Optional
  import opened JavaLang
  import opened TreeMaps
  import opened WordIndex
  import opened TimeText
  import opened Database
  import Cooking = CookingRecipeActivity

  /** Intent.ACTION_SEARCH */
  const ACTION_SEARCH: string := "android.intent.action.SEARCH"
  const FAVORITES: string := "Favorites"
  const SHOPPING_LIST: string := "Shopping List"

  // ---------------------------------------------------------------------------
  // handleIntent
  // ---------------------------------------------------------------------------

  /** Where handleIntent takes the recipe list from. */
  datatype Load = LoadSearch | LoadAll | LoadFavorites | LoadShoppingList | LoadNothing

  /**
   * The search action wins over any operation; without it a missing operation
   * lists every recipe, the two known operations load their lists, and any
   * other operation loads nothing.
   */
  function Dispatch(action: Option<string>, operation: Option<string>): (load: Load)
    ensures action == Some(ACTION_SEARCH) ==> load == LoadSearch
    ensures action != Some(ACTION_SEARCH) ==>
      && (load == LoadAll <==> operation.None?)
      && (load == LoadFavorites <==> operation == Some(FAVORITES))
      && (load == LoadShoppingList <==> operation == Some(SHOPPING_LIST))
      && (load == LoadNothing <==> operation.Some? && operation.value != FAVORITES && operation.value != SHOPPING_LIST)
  {
    if action.Some? && action.value == ACTION_SEARCH then LoadSearch
    else if operation.Some? then
      if operation.value == FAVORITES then LoadFavorites
      else if operation.value == SHOPPING_LIST then LoadShoppingList
      else LoadNothing
    else LoadAll
  }

  /** The list screen's state: the recipes it shows and the operation it was opened for. */
  class SelectRecipeScreen {
    var recipes: Option<seq<Recipe>>
    var operation: Option<string>

    constructor ()
      ensures recipes.None? && operation.None?
    {
      recipes := None;
      operation := None;
    }

    /**
     * handleIntent: record the operation, then load the recipes Dispatch
     * names; an unknown operation keeps the list shown before.
     */
    method HandleIntent(db: RecipeDatabase, action: Option<string>, op: Option<string>, query: Option<string>,
                        favoriteRecipes: seq<Recipe>, shoppingListRecipes: seq<Recipe>)
      requires db.Valid()
      modifies this`recipes, this`operation
      ensures operation == op
      ensures Dispatch(action, op) == LoadSearch ==>
        && (recipes.None? <==> query.None?)
        && (recipes.Some? ==>
              var terms := Terms(query.value);
              && (forall r :: r in recipes.value <==> db.Stored(r) && terms != {} && terms <= RecipeWords(r))
              && Distinct(recipes.value)
              && SortedBy(recipes.value, NameOf))
      ensures Dispatch(action, op) == LoadAll ==>
        && recipes.Some?
        && (forall r :: r in recipes.value <==> db.Stored(r))
        && Distinct(recipes.value)
        && SortedBy(recipes.value, NameOf)
      ensures Dispatch(action, op) == LoadFavorites ==> recipes == Some(favoriteRecipes)
      ensures Dispatch(action, op) == LoadShoppingList ==> recipes == Some(shoppingListRecipes)
      ensures Dispatch(action, op) == LoadNothing ==> recipes == old(recipes)
    {
      operation := op;
      if action.Some? && action.value == ACTION_SEARCH {
        recipes := db.SearchRecipes(query);
      } else if operation.Some? {
        if operation.value == FAVORITES {
          recipes := Some(favoriteRecipes);
        } else if operation.value == SHOPPING_LIST {
          recipes := Some(shoppingListRecipes);
        }
      } else {
        var all := db.AllRecipes();
        recipes := Some(all);
      }
    }
  }

  // ---------------------------------------------------------------------------
  // The cooking time of a list row
  // ---------------------------------------------------------------------------

  /**
   * RecipeListViewAdapter.getTime: the hours part (when the truncated hour
   * count is not 0) and "<m> <min>", with Java's truncating `/` and `%` on
   * the 16-bit total and no guard for a total that is 0 or negative.
   */
  function GetTime(t: RecipeTime, hourLabel: string, hoursLabel: string, minLabel: string): (s: string)
    ensures |s| > |minLabel| && s[|s| - |minLabel| - 1..] == " " + minLabel
    ensures IsLabel(hourLabel) && IsLabel(hoursLabel) && IsLabel(minLabel) ==>
            ReadTime(s, hourLabel, hoursLabel, minLabel) == Some(TotalMinutes(t) as int)
  {
    var total := TotalMinutes(t);
    var prefix := HoursText(ToShort(Quot(total, 60)), hourLabel, hoursLabel) + IntToString(Rem(total, 60));
    var text := prefix + " " + minLabel;
    EndsWithWord(prefix, minLabel, text);
    TotalReadsBack(total, text, hourLabel, hoursLabel, minLabel);
    text
  }

  /** With one-word labels, every 16-bit total, zero and negative ones included, reads back from its text. */
  lemma TotalReadsBack(total: short, text: string, hourLabel: string, hoursLabel: string, minLabel: string)
    requires text == HoursText(ToShort(Quot(total, 60)), hourLabel, hoursLabel)
                     + IntToString(Rem(total, 60)) + " " + minLabel
    ensures IsLabel(hourLabel) && IsLabel(hoursLabel) && IsLabel(minLabel) ==>
            ReadTime(text, hourLabel, hoursLabel, minLabel) == Some(total as int)
  {
    if IsLabel(hourLabel) && IsLabel(hoursLabel) && IsLabel(minLabel) {
      var h, m := Quot(total, 60), Rem(total, 60);
      assert ToShort(h) == h && h * 60 + m == total;
      assert text == HoursText(h, hourLabel, hoursLabel) + IntToString(m) + " " + minLabel;
      ReadTimeOf(h, m, hourLabel, hoursLabel, minLabel);
    }
  }

  /** A total of 0 shows as "0 <min>". */
  lemma GetTimeZero(t: RecipeTime, hourLabel: string, hoursLabel: string, minLabel: string)
    requires TotalMinutes(t) == 0
    ensures GetTime(t, hourLabel, hoursLabel, minLabel) == "0 " + minLabel
  {
    assert IntToString(0) == "0";
  }

  /** A negative total shows a non-positive hour count and a non-positive minute count. */
  lemma GetTimeNegative(t: RecipeTime, hourLabel: string, hoursLabel: string, minLabel: string)
    requires TotalMinutes(t) < 0
    ensures var total := TotalMinutes(t) as int;
            var h, m := -((-total) / 60), -((-total) % 60);
            && h <= 0 && -60 < m <= 0 && h * 60 + m == total
            && GetTime(t, hourLabel, hoursLabel, minLabel)
               == HoursText(h, hourLabel, hoursLabel) + IntToString(m) + " " + minLabel
  {
    var total := TotalMinutes(t) as int;
    var h, m := -((-total) / 60), -((-total) % 60);
    assert Quot(total, 60) == h && Rem(total, 60) == m;
    assert -0x8000 <= h <= 0 && ToShort(h) == h;
  }

  /** -61 minutes show as "-1 <hours> -1 <min>": the plural label and two negative counts. */
  lemma GetTimeMinus61(hourLabel: string, hoursLabel: string, minLabel: string)
    ensures GetTime(RecipeTime(-61, 0, 0), hourLabel, hoursLabel, minLabel)
            == "-1 " + hoursLabel + " -1 " + minLabel
  {
    var t := RecipeTime(-61, 0, 0);
    assert TotalMinutes(t) == -61;
    assert Quot(-61, 60) == -1 && Rem(-61, 60) == -1;
    assert IntToString(-1) == "-1";
  }

  /** On a positive total the list row and the cookingxp recipe screen show the same text. */
  lemma GetTimeAgreesOnPositive(t: RecipeTime, hourLabel: string, hoursLabel: string, minLabel: string)
    requires TotalMinutes(t) > 0
    ensures GetTime(t, hourLabel, hoursLabel, minLabel) == Cooking.GetTime(t, hourLabel, hoursLabel, minLabel)
  {
  }

  // ---------------------------------------------------------------------------
  // The right-hand side of a list row
  // ---------------------------------------------------------------------------

  /**
   * getView: the recipe's shopping-list quantity when the screen shows the
   * shopping list, its cooking time otherwise.
   */
  function InfoRight(operation: Option<string>, quantity: byte, t: RecipeTime,
                     hourLabel: string, hoursLabel: string, minLabel: string): (s: string)
    ensures ' ' !in s <==> operation == Some(SHOPPING_LIST)
    ensures operation == Some(SHOPPING_LIST) ==> s == IntToString(quantity)
    ensures operation != Some(SHOPPING_LIST) ==> s == GetTime(t, hourLabel, hoursLabel, minLabel)
  {
    if operation == Some(SHOPPING_LIST) then IntToString(quantity)
    else GetTime(t, hourLabel, hoursLabel, minLabel)
  }

  /** The right-hand text is a number, the quantity, exactly on the shopping-list screen. */
  lemma InfoRightIsQuantity(operation: Option<string>, quantity: byte, t: RecipeTime,
                            hourLabel: string, hoursLabel: string, minLabel: string)
    ensures var s := InfoRight(operation, quantity, t, hourLabel, hoursLabel, minLabel);
            && (operation == Some(SHOPPING_LIST) ==> ParseInt(s) == Some(quantity as int))
            && (operation != Some(SHOPPING_LIST) ==> ParseInt(s).None?)
  {
    if operation == Some(SHOPPING_LIST) {
      ParseIntToString(quantity);
    }
  }
}

# CookingXP recipe store, in Dafny

This project models the recipe store of the CookingXP Android apps. The store is an
in-memory recipe database with an inverted word index and conjunctive search.
Two revisions are modelled:

- `RecipeDatabase` (appx). It has a favourites set loaded from a space-separated string.
- `RecipeBase` (appx). It also keeps a name-ordered map of recipe lists.

The project also models the small pieces of logic in two screens that show recipes:

- the cookingxp recipe screen: the cooking-time text, the ingredient lines, the
  shopping-list quantity choices, and the favourite and quantity handlers;
- the appx recipe list: how an incoming intent picks the recipes it shows, the
  cooking-time text of a row, and what the right-hand side of a row shows.

Modules, one file each:

| module | file | models |
|---|---|---|
| `Optional` | optional.dfy | `null` as `None` |
| `JavaLang` | java_lang.dfy | the Java semantics the code relies on: `(short)` and `(byte)` casts, truncating `/` and `%`, int printing, `Integer.valueOf`, `toLowerCase(Locale.US)` on ASCII, and `String.split(" ")` |
| `TreeMaps` | tree_maps.dfy | `String.compareTo`, the ascending entry order of a `TreeMap<String, …>`, and the loops that flatten such a map into a list |
| `WordIndex` | word_index.dfy | `index` and the hit-counting search shared by both stores |
| `Database` | recipe_database.dfy | `RecipeDatabase` as a class with its four fields |
| `Base` | recipe_base.dfy | `RecipeBase` as a class with its four fields |
| `TimeText` | time_text.dfy | the 16-bit time total and the "h hour(s) m min" text both screens build |
| `CookingRecipeActivity` | recipe_activity.dfy | cookingxp `RecipeActivity` |
| `SelectRecipe` | select_recipe_activity.dfy | appx `SelectRecipeActivity` |

Both stores are classes whose methods update their fields in place.

- **Store invariant.** The ids in `idMap` are exactly `0 .. recipeCounter - 1`, and each
  recipe carries its own id.
- **Index invariant.** The index is exact: it posts an id under a word iff that word is
  among the recipe's words.
- **`RecipeBase` invariant.** `recipeMap` lists every stored recipe under its own name,
  in ascending id order.
- **How search is proved.** The hit-counting loops of `searchRecipes` are proved against
  a value-level specification: the recipes whose id is in the posting set of every
  distinct lower-cased query word. The lemma `WordIndex.HitCountAll` connects the two:
  a count equal to the number of distinct terms means the id is in every posting set.
- **Order of results.** Results are stated as sets, without duplicates, and with names
  in `String.compareTo` order. `getRecipes` also orders equal names by ascending id.

## Model

| member | source | states |
|---|---|---|
| JavaLang.ToShort | src/com/companyx/android/cookingxp/RecipeActivity.java:274 | `(short) x` keeps x modulo 2^16 in -32768..32767 and is the identity on that range |
| JavaLang.ToByte | src/com/companyx/android/cookingxp/RecipeActivity.java:127 | `(byte) x` keeps x modulo 2^8 in -128..127 and is the identity on that range |
| JavaLang.Quot | src/com/companyx/android/cookingxp/RecipeActivity.java:280 | Java `a / b` for b > 0 truncates toward zero: the remainder left has the sign of a and is smaller than b |
| JavaLang.Rem | src/com/companyx/android/cookingxp/RecipeActivity.java:289 | Java `a % b` for b > 0: `(a / b) * b + a % b == a`, with the sign of a and magnitude below b |
| JavaLang.IntToString | src/com/companyx/android/cookingxp/RecipeActivity.java:284 | an int printed into a string is non-empty, has no space, and starts with '-' exactly when negative |
| JavaLang.ParseInt | src/com/companyx/android/appx/RecipeDatabase.java:111 | `Integer.valueOf` gives a value only for a non-empty token without a space, and the value is within int range |
| JavaLang.ParseIntToString | src/com/companyx/android/appx/RecipeDatabase.java:111 | `Integer.valueOf` reads back every printed int |
| JavaLang.Lower | src/com/companyx/android/appx/RecipeDatabase.java:184 | ASCII lower-casing, which is what `toLowerCase(Locale.US)` does on ASCII text, keeps the length; the result has a space iff the input has one |
| JavaLang.Utf16Length | src/com/companyx/android/cookingxp/RecipeActivity.java:187 | `String.length()` counts UTF-16 units: between one and two per character, and exactly one per character iff every character is in the Basic Multilingual Plane |
| JavaLang.LowerAll | src/com/companyx/android/appx/RecipeDatabase.java:183-184 | lower-casing a word array keeps its length and lower-cases each element |
| JavaLang.LowerIdempotent | src/com/companyx/android/appx/RecipeDatabase.java:235 | lower-casing twice is lower-casing once |
| JavaLang.Pieces | src/com/companyx/android/appx/RecipeDatabase.java:180 | the pieces between single spaces: at least one, none containing a space |
| JavaLang.DropTrailingEmpty | src/com/companyx/android/appx/RecipeDatabase.java:180 | split drops only trailing empty pieces, and the last kept piece is non-empty |
| JavaLang.Split | src/com/companyx/android/appx/RecipeDatabase.java:180 | `split(" ")` yields words without spaces |
| JavaLang.JoinPieces | src/com/companyx/android/appx/RecipeDatabase.java:180 | the pieces glued back with single spaces give the original string |
| JavaLang.PiecesJoin | src/com/companyx/android/appx/RecipeDatabase.java:180 | cutting a single-space join of space-free tokens gives the tokens back |
| JavaLang.SplitJoin | src/com/companyx/android/appx/RecipeDatabase.java:108 | `split(" ")` reads back a single-space join of non-empty space-free tokens |
| JavaLang.SplitOfSpaces | src/com/companyx/android/appx/RecipeDatabase.java:238 | a string of only spaces splits into no words |
| JavaLang.SplitLower | src/com/companyx/android/appx/RecipeDatabase.java:235-238 | lower-casing then splitting equals splitting then lower-casing each word |
| JavaLang.SplitEmptyAndBlank | src/com/companyx/android/appx/RecipeDatabase.java:180 | `"".split(" ")` is `[""]` and `"   ".split(" ")` is `[]` |
| JavaLang.SplitDoubleSpace | src/com/companyx/android/appx/RecipeDatabase.java:180 | `"a  b"` splits into `a`, the empty word and `b` |
| JavaLang.SplitLeadingSpace | src/com/companyx/android/appx/RecipeDatabase.java:180 | a leading space yields a leading empty word |
| JavaLang.SplitTrailingSpaces | src/com/companyx/android/appx/RecipeDatabase.java:180 | trailing spaces yield no trailing empty words |
| TreeMaps.BelowIrreflexive | src/com/companyx/android/appx/RecipeDatabase.java:204 | `compareTo` never puts a string below itself |
| TreeMaps.BelowTransitive | src/com/companyx/android/appx/RecipeDatabase.java:204 | the `compareTo` order is transitive |
| TreeMaps.BelowTotal | src/com/companyx/android/appx/RecipeDatabase.java:204 | of two different strings, one is below the other |
| TreeMaps.BelowAsymmetric | src/com/companyx/android/appx/RecipeDatabase.java:204 | two strings are never below each other |
| TreeMaps.Least | src/com/companyx/android/appx/RecipeDatabase.java:215 | the first key a TreeMap visits is below every other key |
| TreeMaps.KeysInOrder | src/com/companyx/android/appx/RecipeDatabase.java:215 | the TreeMap's entry keys come in strictly ascending order, each key once |
| TreeMaps.GroupByName | src/com/companyx/android/appx/RecipeDatabase.java:206-212 | the name-keyed TreeMap holds each id under its recipe's name and nothing else |
| TreeMaps.FlattenSets | src/com/companyx/android/appx/RecipeDatabase.java:215-218 | flattening yields each grouped recipe exactly once, names non-decreasing |
| TreeMaps.AppendGroup | src/com/companyx/android/appx/RecipeDatabase.java:216-217 | the inner loop appends exactly the recipes of one name's set |
| TreeMaps.FlattenLists | src/com/companyx/android/appx/RecipeBase.java:136-139 | flattening lists yields each listed recipe once, names non-decreasing, and ids ascending within a name when every list is in ascending id order |
| TreeMaps.AppendList | src/com/companyx/android/appx/RecipeBase.java:137-138 | the inner loop appends one name's list unchanged |
| WordIndex.Words | src/com/companyx/android/appx/RecipeDatabase.java:180-184 | an indexed word never contains a space |
| WordIndex.TermsAreWords | src/com/companyx/android/appx/RecipeDatabase.java:235-243 | the distinct query words are the words `index` records for the same text |
| WordIndex.BlankQueryHasNoTerms | src/com/companyx/android/appx/RecipeDatabase.java:238-246 | a query of only spaces has no terms |
| WordIndex.EmptyQueryIsEmptyToken | src/com/companyx/android/appx/RecipeDatabase.java:238-246 | the empty query is the one-term query for the empty word |
| WordIndex.PostedFacts | src/com/companyx/android/appx/RecipeDatabase.java:186-193 | posting adds the id under exactly the given words, creates missing sets, and changes nothing else |
| WordIndex.PostedStep | src/com/companyx/android/appx/RecipeDatabase.java:186-193 | one iteration of the posting loop posts one more word |
| WordIndex.PostedNone | src/com/companyx/android/appx/RecipeDatabase.java:186-193 | posting under no word changes nothing |
| WordIndex.PostedUnion | src/com/companyx/android/appx/RecipeDatabase.java:167-171 | indexing two texts in turn posts under the union of their words |
| WordIndex.LowerWords | src/com/companyx/android/appx/RecipeDatabase.java:183-184 | the in-place lower-casing loop lower-cases every word |
| WordIndex.AddWords | src/com/companyx/android/appx/RecipeDatabase.java:179-194 | `index` posts the id under every lower-cased split word of the text |
| WordIndex.PostedKeepsExact | src/com/companyx/android/appx/RecipeDatabase.java:161-171 | posting a new id under its recipe's words keeps the index exact |
| WordIndex.ExactPostingsStored | src/com/companyx/android/appx/RecipeDatabase.java:253-257 | an exact index posts only stored ids, so `idMap.get(i)` is never null |
| WordIndex.ExactMatches | src/com/companyx/android/appx/RecipeDatabase.java:251-271 | against an exact index, an id matches iff the terms are non-empty and all among its recipe's words |
| WordIndex.HitCountAll | src/com/companyx/android/appx/RecipeBase.java:161-191 | a hit count equal to the number of distinct terms holds iff every term's posting set holds the id |
| WordIndex.AddHits | src/com/companyx/android/appx/RecipeDatabase.java:256-263 | the inner loop counts one hit for each id of one posting set |
| WordIndex.CountedStep | src/com/companyx/android/appx/RecipeDatabase.java:251-265 | counting one more term's posting set keeps the hit table equal to the hit counts |
| WordIndex.CountHits | src/com/companyx/android/appx/RecipeDatabase.java:249-265 | the hit table holds, for each hit id, the number of distinct terms whose posting set holds it |
| WordIndex.CountedMatches | src/com/companyx/android/appx/RecipeDatabase.java:246-271 | a hit-table entry equals the term count iff the id matches every term |
| WordIndex.GroupMatches | src/com/companyx/android/appx/RecipeDatabase.java:268-280 | the result tree holds, under its name, each recipe whose id matches every term |
| WordIndex.Search | src/com/companyx/android/appx/RecipeDatabase.java:235-289 | search returns each stored recipe whose id is in every term's posting set, provided there is at least one term (a query with no words matches nothing); each once, names non-decreasing |
| WordIndex.Dedupe | src/com/companyx/android/appx/RecipeDatabase.java:241-243 | the de-duplicating loop yields exactly the set of query words |
| Database.ParsablePrefix | src/com/companyx/android/appx/RecipeDatabase.java:108-111 | the tokens before the first one `Integer.valueOf` refuses |
| Database.EmptyFavoritesRefused | src/com/companyx/android/appx/RecipeDatabase.java:108-111 | `loadFavorites("")` meets `Integer.valueOf("")` first and adds nothing |
| Database.SerializedIdsRoundTrip | src/com/companyx/android/appx/RecipeDatabase.java:104-112 | a space-separated list of ints splits and parses back to those ints |
| Database.RecipeDatabase.IdsDistinguish | src/com/companyx/android/appx/RecipeDatabase.java:161-164 | in a valid store, different ids hold different recipes |
| Database.RecipeDatabase.constructor | src/com/companyx/android/appx/RecipeDatabase.java:31-33 | a new database is reset: valid and empty |
| Database.RecipeDatabase.ResetDatabase | src/com/companyx/android/appx/RecipeDatabase.java:39-44 | index, id map and favourites empty, counter 0 |
| Database.RecipeDatabase.AddRecipe | src/com/companyx/android/appx/RecipeDatabase.java:156-172 | null changes nothing; else the id is the old counter, the counter grows by 1, idMap gains that one entry, the id is posted under every word of name and ingredients, no posting set shrinks, the invariant holds |
| Database.RecipeDatabase.IndexIngredients | src/com/companyx/android/appx/RecipeDatabase.java:170-171 | the ingredient loop posts the id under every ingredient name's words |
| Database.RecipeDatabase.Index | src/com/companyx/android/appx/RecipeDatabase.java:179-194 | `index` posts the id under the text's words |
| Database.RecipeDatabase.AllRecipes | src/com/companyx/android/appx/RecipeDatabase.java:200-221 | every stored recipe exactly once, names non-decreasing |
| Database.RecipeDatabase.SearchRecipes | src/com/companyx/android/appx/RecipeDatabase.java:230-290 | null iff the query is null; else, when the query has at least one word, exactly the stored recipes having every distinct lower-cased query word, once, names non-decreasing; a query with no words matches nothing |
| Database.RecipeDatabase.FindRecipeById | src/com/companyx/android/appx/RecipeDatabase.java:297-302 | null for a negative id; in a valid store, the recipe with that id exactly when 0 <= id < counter |
| Database.RecipeDatabase.LoadFavorites | src/com/companyx/android/appx/RecipeDatabase.java:104-112 | null is a no-op; else the favourites grow by the parsed ids before the first bad token, and nothing is removed or filtered |
| Database.RecipeDatabase.IsFavorite | src/com/companyx/android/appx/RecipeDatabase.java:144-149 | membership in the favourites set |
| Database.RecipeDatabase.GetFavorites | src/com/companyx/android/appx/RecipeDatabase.java:118-137 | fails iff some favourite id has no recipe; else exactly the favourite stored recipes, once, names non-decreasing |
| Database.LoadSerializedFavorites | src/com/companyx/android/appx/RecipeDatabase.java:104-112 | ids written space-separated and loaded into a new database load without error, and `isFavorite` then holds for exactly those ids |
| Base.Appended | src/com/companyx/android/appx/RecipeBase.java:101-104 | the recipe goes at the end of its name's list, a missing list is created, other lists are unchanged |
| Base.AppendedByUpdate | src/com/companyx/android/appx/RecipeBase.java:102-104 | the create-then-add statements compute that append |
| Base.AppendKeepsLists | src/com/companyx/android/appx/RecipeBase.java:101-104 | appending a recipe with a new, larger id keeps the lists grouped by name, in id order, and listing exactly the stored recipes |
| Base.AppendedList | src/com/companyx/android/appx/RecipeBase.java:101-104 | the list appended to stays one name and in ascending id order |
| Base.AddKeepsValid | src/com/companyx/android/appx/RecipeBase.java:84-105 | adding under the next id, indexed and listed, keeps the store invariant |
| Base.NextIdKeepsRange | src/com/companyx/android/appx/RecipeBase.java:89-92 | the next id extends the id range `0 .. recipeCounter - 1` by one |
| Base.RecipeBase.constructor | src/com/companyx/android/appx/RecipeBase.java:28-33 | a new base is valid, with empty maps and counter 0 |
| Base.RecipeBase.AddRecipe | src/com/companyx/android/appx/RecipeBase.java:84-105 | as in RecipeDatabase, and the recipe is appended to the end of its name's list |
| Base.RecipeBase.Index | src/com/companyx/android/appx/RecipeBase.java:112-127 | `index` posts the id under the text's words |
| Base.RecipeBase.IndexIngredients | src/com/companyx/android/appx/RecipeBase.java:98-99 | the ingredient loop posts the id under every ingredient name's words |
| Base.RecipeBase.GetRecipes | src/com/companyx/android/appx/RecipeBase.java:133-142 | every added recipe once, names non-decreasing, equal names in ascending id (insertion) order |
| Base.RecipeBase.SearchRecipes | src/com/companyx/android/appx/RecipeBase.java:150-210 | null iff the query is null; else, when the query has at least one word, exactly the stored recipes having every distinct lower-cased query word, once, names non-decreasing; a query with no words matches nothing |
| TimeText.TotalMinutes | src/com/companyx/android/cookingxp/RecipeActivity.java:274 | the total is the three-minute sum wrapped to 16 bits, equal to the sum when it fits |
| TimeText.HoursText | src/com/companyx/android/cookingxp/RecipeActivity.java:282-287 | the hours part is empty iff the hour count is 0; otherwise it starts with the printed count (so not with a space) and ends in a space; which label it carries is pinned by the read-back lemmas, since `ReadTime` accepts only the singular label for 1 and the plural label otherwise |
| TimeText.ReadMinutes | src/com/companyx/android/cookingxp/RecipeActivity.java:289 | "m min" reads back as m |
| TimeText.ReadHoursMinutes | src/com/companyx/android/cookingxp/RecipeActivity.java:282-289 | "h label m min" reads back as h * 60 + m when the label is the singular one for h == 1 and the plural one otherwise |
| TimeText.WrongLabelRefused | src/com/companyx/android/cookingxp/RecipeActivity.java:282-287 | "h label m min" with the other label, such as "2 hour" or "1 hours", is refused |
| TimeText.ReadTimeOf | src/com/companyx/android/cookingxp/RecipeActivity.java:280-289 | any hours part and "m min" read back as h * 60 + m, so the hours part carries the singular label exactly for h == 1 |
| CookingRecipeActivity.GetTime | src/com/companyx/android/cookingxp/RecipeActivity.java:272-290 | the text is " --- " iff the 16-bit total is not positive |
| CookingRecipeActivity.GetTimeReadsBack | src/com/companyx/android/cookingxp/RecipeActivity.java:274-289 | for a positive total, the text reads back as that total |
| CookingRecipeActivity.GetTimeParts | src/com/companyx/android/cookingxp/RecipeActivity.java:280-289 | under 60: "m min"; 60..119: "1 hour m min"; from 120: "h hours m min", with h and m from ordinary division |
| CookingRecipeActivity.GetTimeWrapsToGuard | src/com/companyx/android/cookingxp/RecipeActivity.java:274-277 | 32768 minutes wrap to -32768 and show " --- " |
| CookingRecipeActivity.GetTimeWrapsToHour | src/com/companyx/android/cookingxp/RecipeActivity.java:274-289 | 65597 minutes wrap to 61 and show "1 hour 1 min" |
| CookingRecipeActivity.ShowsNotes | src/com/companyx/android/cookingxp/RecipeActivity.java:187 | notes are shown iff present, non-empty, and not a single Basic Multilingual Plane character (Java's `length() > 1` counts UTF-16 units) |
| CookingRecipeActivity.IngredientLine | src/com/companyx/android/cookingxp/RecipeActivity.java:183-188 | the line starts with "amount measurement name" and is longer exactly when the notes are shown, the rest then being " (notes)" |
| CookingRecipeActivity.IngredientLineSplits | src/com/companyx/android/cookingxp/RecipeActivity.java:183-188 | with single-word fields the line splits into amount, measurement, name, and "(notes)" exactly when the notes are shown |
| CookingRecipeActivity.OneCharacterNoteDropped | src/com/companyx/android/cookingxp/RecipeActivity.java:187-188 | a note of one BMP character (length 1) is not shown |
| CookingRecipeActivity.SupplementaryNoteShown | src/com/companyx/android/cookingxp/RecipeActivity.java:187-188 | a note of one character beyond U+FFFF (length 2) is shown in parentheses |
| CookingRecipeActivity.SpinnerChoices | src/com/companyx/android/cookingxp/RecipeActivity.java:115-117 | MAX_QUANTITY + 1 choices " 0" .. " 8" in order, choice i reading back as i |
| CookingRecipeActivity.Toggled | src/com/companyx/android/cookingxp/RecipeActivity.java:97-105 | the clicked id's membership flips and no other id changes |
| CookingRecipeActivity.ToggledTwice | src/com/companyx/android/cookingxp/RecipeActivity.java:97-105 | two clicks restore the favourites |
| CookingRecipeActivity.QuantityChange | src/com/companyx/android/cookingxp/RecipeActivity.java:132-135 | "added" iff the position is larger, "removed" iff smaller, a positive count, and the count leads from the old quantity to the position |
| CookingRecipeActivity.RecipeScreen.OnFavoriteClick | src/com/companyx/android/cookingxp/RecipeActivity.java:95-110 | favourites toggled, then saved; the message says added iff the id is now a favourite |
| CookingRecipeActivity.RecipeScreen.OnItemSelected | src/com/companyx/android/cookingxp/RecipeActivity.java:123-137 | the quantity becomes `(byte) position` and is saved; the message compares the position with the quantity read before |
| SelectRecipe.Dispatch | src/com/companyx/android/appx/SelectRecipeActivity.java:76-85 | the search action wins; otherwise no operation lists all, the two known operations load their lists, any other loads nothing |
| SelectRecipe.SelectRecipeScreen.HandleIntent | src/com/companyx/android/appx/SelectRecipeActivity.java:66-89 | the operation is recorded and the recipes are the search result, all recipes, the favourites, the shopping list, or unchanged, as Dispatch says |
| SelectRecipe.GetTime | src/com/companyx/android/appx/SelectRecipeActivity.java:250-265 | the row text ends in " min", and with one-word labels it reads back as the 16-bit total, zero and negative totals included |
| SelectRecipe.TotalReadsBack | src/com/companyx/android/appx/SelectRecipeActivity.java:252-264 | with one-word labels, every 16-bit total, zero and negative ones included, reads back from its text, including the label chosen for its hour count |
| SelectRecipe.GetTimeZero | src/com/companyx/android/appx/SelectRecipeActivity.java:252-264 | a total of 0 shows "0 min" |
| SelectRecipe.GetTimeNegative | src/com/companyx/android/appx/SelectRecipeActivity.java:252-264 | a negative total shows truncated, non-positive hour and minute counts that add up to it |
| SelectRecipe.GetTimeMinus61 | src/com/companyx/android/appx/SelectRecipeActivity.java:252-264 | -61 minutes show as "-1 hours -1 min" |
| SelectRecipe.GetTimeAgreesOnPositive | src/com/companyx/android/appx/SelectRecipeActivity.java:250-265 | on a positive total the row shows the same text as the cookingxp recipe screen |
| SelectRecipe.InfoRight | src/com/companyx/android/appx/SelectRecipeActivity.java:230-233 | on the shopping-list screen the text is the printed quantity, otherwise the row's cooking-time text; it has no space iff the screen is the shopping list |
| SelectRecipe.InfoRightIsQuantity | src/com/companyx/android/appx/SelectRecipeActivity.java:230-233 | the text parses as a number, the quantity, exactly on the shopping-list screen |

## Left out

- Android UI: views, toasts, dialogs, layout arithmetic and preference commits. The
  handlers' messages are modelled as data; a save to the preferences file is a snapshot field.
- The lazily created singleton (`getInstance`) and `synchronized` blocks. One sequential
  instance is modelled.
- Recipes are values. Java's in-place write of `recipeId` into the caller's object, and any
  aliasing of a recipe object added twice, are not modelled.
- Null fields inside a recipe (a null name or ingredient list) are not modelled. `addRecipe`
  would throw on them.
- The int `recipeCounter` is unbounded; its wrap after 2^31 additions is not modelled.
- `String.compareTo` compares UTF-16 code units. Here strings compare by Dafny `char`, which
  differs only outside the Basic Multilingual Plane.
- Base.RecipeBase.AddRecipe: `toLowerCase(Locale.US)` is modelled on ASCII letters only;
  the same holds for Database.RecipeDatabase.AddRecipe and both SearchRecipes.
- JavaLang.ParseInt accepts ASCII digits only; Java also accepts other Unicode digits.
- Database.RecipeDatabase.SearchRecipes, AllRecipes and GetFavorites: the order of
  recipes with equal names comes from hash iteration and is left unspecified.
- `RecipeBase.RecipeIngredient.amount` is a float that is never computed with. It is kept as
  its 32 bits, with no arithmetic.
- The cookingxp `RecipeDatabase` is not part of this model. The recipe screen sees it as a
  favourites set and one recipe's quantity. `addFavorite`, `removeFavorite` and
  `getSerializedFavorites` are modelled as adding, removing and saving the set.
  `getQuantity` and `updateQuantity` are modelled as reading and writing the quantity.
- The cookingxp ingredient amount is taken as its printed text, because its type is not shown.
- SelectRecipe.InfoRight: the appx `getQuantity` is not shown. Its result is taken as a
  `byte`, as the cookingxp `getQuantity` returns, and printed as an int.
- `RecipeTime` is not defined in any shown file. Its three counts are taken as integers,
  since the `(short)` cast keeps the same low 16 bits whatever their Java integer type.
- `getFavoriteRecipes`, `getShoppingListRecipes` and `getShoppingList` are not shown. The
  first two are parameters of `HandleIntent`, and the shopping-list ingredient views built
  from the third are left out.
- RecipeLoader, RecipeParser, GameData and the other activities are not part of this model.
  They are stream, regex and UI code.
- `RecipeBase` keeps a ghost map `slot` from each id to its position in its name's list.
  It is only a proof aid and has no counterpart in the Java class.

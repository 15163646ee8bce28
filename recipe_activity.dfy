/**
 * The recipe screen of the cookingxp app: the preparation-time text (with its
 * " --- " guard for a non-positive total), the ingredient lines, the quantity
 * choices of the shopping-list spinner, and the two handlers that change the
 * recipe database: the favourite button and the quantity spinner.
 *
 * The database behind the handlers is not part of this model; it is taken as
 * what the handlers use of it: a set of favourite ids and this recipe's
 * shopping-list quantity, each with the snapshot last written to the
 * preferences file.
 */
module CookingRecipeActivity {
  import opened Optional
  import opened JavaLang
  import opened TimeText

  /** The largest quantity the shopping-list spinner offers. */
  const MAX_QUANTITY: byte := 8

  // ---------------------------------------------------------------------------
  // Preparation time
  // ---------------------------------------------------------------------------

  /**
   * getTime: " --- " when the 16-bit total is not positive, otherwise the
   * hours part (when there is at least one hour) and "<m> <min>", with Java's
   * truncating `/` and `%`.
   */
  function GetTime(t: RecipeTime, hourLabel: string, hoursLabel: string, minLabel: string): (s: string)
    ensures s == " --- " <==> TotalMinutes(t) <= 0
  {
    var total := TotalMinutes(t);
    if total <= 0 then " --- "
    else
      var hours := ToShort(Quot(total, 60));
      TimeTextStart(hours, Rem(total, 60), hourLabel, hoursLabel, minLabel);
      HoursText(hours, hourLabel, hoursLabel) + IntToString(Rem(total, 60)) + " " + minLabel
  }

  /** For a positive total the text reads back as that total. */
  lemma GetTimeReadsBack(t: RecipeTime, hourLabel: string, hoursLabel: string, minLabel: string)
    requires IsLabel(hourLabel) && IsLabel(hoursLabel) && IsLabel(minLabel)
    requires TotalMinutes(t) > 0
    ensures ReadTime(GetTime(t, hourLabel, hoursLabel, minLabel), hourLabel, hoursLabel, minLabel)
            == Some(TotalMinutes(t) as int)
  {
    var total := TotalMinutes(t);
    var h, m := Quot(total, 60), Rem(total, 60);
    assert ToShort(h) == h && h * 60 + m == total;
    var text := HoursText(h, hourLabel, hoursLabel) + IntToString(m) + " " + minLabel;
    assert GetTime(t, hourLabel, hoursLabel, minLabel) == text;
    ReadTimeOf(h, m, hourLabel, hoursLabel, minLabel);
    assert ReadTime(text, hourLabel, hoursLabel, minLabel) == Some(total as int);
  }

  /**
   * For a positive total, in terms of ordinary division: no hours part under
   * an hour, the singular label for one hour, the plural one beyond, and the
   * minutes always 0..59.
   */
  lemma GetTimeParts(t: RecipeTime, hourLabel: string, hoursLabel: string, minLabel: string)
    requires TotalMinutes(t) > 0
    ensures var total := TotalMinutes(t) as int;
            var s := GetTime(t, hourLabel, hoursLabel, minLabel);
            && (total < 60 ==> s == IntToString(total) + " " + minLabel)
            && (60 <= total < 120 ==> s == "1 " + hourLabel + " " + IntToString(total - 60) + " " + minLabel)
            && (120 <= total ==> s == IntToString(total / 60) + " " + hoursLabel + " "
                                      + IntToString(total % 60) + " " + minLabel)
  {
    var total := TotalMinutes(t) as int;
    var h, m := total / 60, total % 60;
    assert Quot(total, 60) == h && Rem(total, 60) == m;
    assert 0 <= h < 0x8000;
    assert GetTime(t, hourLabel, hoursLabel, minLabel)
        == HoursText(h, hourLabel, hoursLabel) + IntToString(m) + " " + minLabel;
    if total < 60 {
      assert h == 0 && HoursText(h, hourLabel, hoursLabel) == "";
    } else if total < 120 {
      assert h == 1 && IntToString(1) == "1";
      assert HoursText(h, hourLabel, hoursLabel) == "1 " + hourLabel + " ";
    } else {
      assert HoursText(h, hourLabel, hoursLabel) == IntToString(h) + " " + hoursLabel + " ";
    }
  }

  /** The 16-bit wrap: 32768 minutes wrap to -32768 and show " --- ". */
  lemma GetTimeWrapsToGuard(hourLabel: string, hoursLabel: string, minLabel: string)
    ensures TotalMinutes(RecipeTime(30000, 2768, 0)) == -0x8000
    ensures GetTime(RecipeTime(30000, 2768, 0), hourLabel, hoursLabel, minLabel) == " --- "
  {
  }

  /** The 16-bit wrap: 65597 minutes wrap to 61 and show as one hour one minute. */
  lemma GetTimeWrapsToHour(hourLabel: string, hoursLabel: string, minLabel: string)
    ensures TotalMinutes(RecipeTime(30000, 30000, 5597)) == 61
    ensures GetTime(RecipeTime(30000, 30000, 5597), hourLabel, hoursLabel, minLabel)
            == "1 " + hourLabel + " 1 " + minLabel
  {
    var t := RecipeTime(30000, 30000, 5597);
    assert TotalMinutes(t) == 61;
    GetTimeParts(t, hourLabel, hoursLabel, minLabel);
    assert IntToString(1) == "1";
  }

  // ---------------------------------------------------------------------------
  // Ingredient lines
  // ---------------------------------------------------------------------------

  /** An ingredient as the screen shows it; the amount is its printed text. */
  datatype RecipeIngredient = RecipeIngredient(
    amount: string, measurement: string, ingredientName: string, notes: Option<string>)

  /**
   * Notes are shown when present and longer than one in Java's length(), which
   * counts UTF-16 units: everything but an empty note and a note of one
   * character from the Basic Multilingual Plane.
   */
  function ShowsNotes(ri: RecipeIngredient): (b: bool)
    ensures b <==> && ri.notes.Some? && ri.notes.value != []
                   && !(|ri.notes.value| == 1 && ri.notes.value[0] as int < 0x1_0000)
  {
    ri.notes.Some? && Utf16Length(ri.notes.value) > 1
  }

  /** "<amount> <measurement> <name>", then " (<notes>)" when the notes are shown. */
  function IngredientLine(ri: RecipeIngredient): (line: string)
    ensures var bare := ri.amount + " " + ri.measurement + " " + ri.ingredientName;
            && |bare| <= |line| && line[..|bare|] == bare
            && (ShowsNotes(ri) <==> |line| > |bare|)
            && (ShowsNotes(ri) ==> line[|bare|..] == " (" + ri.notes.value + ")")
  {
    var s := ri.amount + " " + ri.measurement + " " + ri.ingredientName;
    if ShowsNotes(ri) then s + " (" + ri.notes.value + ")" else s
  }

  /**
   * With single-word fields the line splits back into amount, measurement and
   * name, followed by the parenthesised notes exactly when they are shown.
   */
  lemma IngredientLineSplits(ri: RecipeIngredient)
    requires IsLabel(ri.amount) && IsLabel(ri.measurement) && IsLabel(ri.ingredientName)
    requires ri.notes.Some? ==> ' ' !in ri.notes.value
    ensures Split(IngredientLine(ri))
            == [ri.amount, ri.measurement, ri.ingredientName]
               + (if ShowsNotes(ri) then ["(" + ri.notes.value + ")"] else [])
  {
    var a, m, n := ri.amount, ri.measurement, ri.ingredientName;
    if ShowsNotes(ri) {
      var p := "(" + ri.notes.value + ")";
      var toks := [a, m, n, p];
      assert ' ' !in p by {
        forall i | 0 <= i < |p| ensures p[i] != ' ' {
          if 0 < i < |p| - 1 { assert p[i] == ri.notes.value[i - 1]; }
        }
      }
      assert Join(toks[3..]) == p;
      assert Join(toks[2..]) == n + " " + p;
      assert Join(toks[1..]) == m + " " + n + " " + p;
      assert Join(toks) == a + " " + m + " " + n + " " + p;
      assert IngredientLine(ri) == Join(toks);
      SplitJoin(toks);
    } else {
      var toks := [a, m, n];
      assert Join(toks[2..]) == n;
      assert Join(toks[1..]) == m + " " + n;
      assert Join(toks) == a + " " + m + " " + n;
      SplitJoin(toks);
    }
  }

  /** A note of one BMP character (one UTF-16 unit) is dropped: the line is the bare ingredient. */
  lemma OneCharacterNoteDropped(a: string, m: string, n: string, c: char)
    requires c as int < 0x1_0000
    ensures IngredientLine(RecipeIngredient(a, m, n, Some([c]))) == a + " " + m + " " + n
  {
  }

  /** A note of one character beyond U+FFFF is two UTF-16 units long and is shown. */
  lemma SupplementaryNoteShown(a: string, m: string, n: string, c: char)
    requires c as int >= 0x1_0000
    ensures IngredientLine(RecipeIngredient(a, m, n, Some([c]))) == a + " " + m + " " + n + " (" + [c] + ")"
  {
  }

  // ---------------------------------------------------------------------------
  // Shopping-list quantity choices
  // ---------------------------------------------------------------------------

  /** The spinner's choices " 0" .. " 8", built by counting a byte up to MAX_QUANTITY. */
  method SpinnerChoices() returns (choices: seq<string>)
    ensures |choices| == MAX_QUANTITY as int + 1
    ensures forall i :: 0 <= i < |choices| ==> choices[i] == [' ', DigitChar(i)]
    ensures forall i :: 0 <= i < |choices| ==> ParseInt(choices[i][1..]) == Some(i)
  {
    choices := [];
    var i: byte := 0;
    while i <= MAX_QUANTITY
      invariant 0 <= i <= MAX_QUANTITY + 1
      invariant |choices| == i as int
      invariant forall j :: 0 <= j < i ==> choices[j] == [' ', DigitChar(j)]
      invariant forall j :: 0 <= j < i ==> ParseInt(choices[j][1..]) == Some(j)
    {
      ParseIntToString(i);
      assert " " + IntToString(i) == [' ', DigitChar(i)];
      choices := choices + [" " + IntToString(i)];
      i := i + 1;
    }
  }

  // ---------------------------------------------------------------------------
  // The favourite button and the quantity spinner
  // ---------------------------------------------------------------------------

  /** The favourites after a click on recipe `id`: removed if present, else added. */
  function Toggled(favorites: set<int>, id: int): (r: set<int>)
    ensures id in r <==> id !in favorites
    ensures forall x :: x != id ==> (x in r <==> x in favorites)
  {
    if id in favorites then favorites - {id} else favorites + {id}
  }

  /** Two clicks restore the favourites. */
  lemma ToggledTwice(favorites: set<int>, id: int)
    ensures Toggled(Toggled(favorites, id), id) == favorites
  {
    var r := Toggled(Toggled(favorites, id), id);
    assert forall x :: x in r <==> x in favorites;
  }

  datatype FavoriteToast = AddedToFavorites | RemovedFromFavorites

  /** The message shown after a quantity change, with the count it reports. */
  datatype QuantityToast = AddedToList(count: int) | RemovedFromList(count: int) | NoToast

  /** The quantity a message reports as reached from `current`. */
  function Applied(current: int, toast: QuantityToast): int {
    match toast
    case AddedToList(n) => current + n
    case RemovedFromList(n) => current - n
    case NoToast => current
  }

  /** The message for moving from quantity `current` to spinner position `position`. */
  function QuantityChange(current: byte, position: int): (toast: QuantityToast)
    ensures toast.AddedToList? <==> position > current
    ensures toast.RemovedFromList? <==> position < current
    ensures toast != NoToast ==> toast.count > 0
    ensures Applied(current, toast) == position
  {
    if position > current then AddedToList(position - current)
    else if position < current then RemovedFromList(current - position)
    else NoToast
  }

  /** The handlers' view of the recipe screen for one recipe. */
  class RecipeScreen {
    const recipeId: int
    /** The database's favourite ids. */
    var favorites: set<int>
    /** The favourites last written to the preferences file. */
    var savedFavorites: set<int>
    /** The database's shopping-list quantity of this recipe. */
    var quantity: byte
    /** The quantity last written to the preferences file. */
    var savedQuantity: byte

    constructor (recipeId: int, favorites: set<int>, quantity: byte)
      ensures this.recipeId == recipeId
      ensures this.favorites == favorites && savedFavorites == favorites
      ensures this.quantity == quantity && savedQuantity == quantity
    {
      this.recipeId := recipeId;
      this.favorites := favorites;
      savedFavorites := favorites;
      this.quantity := quantity;
      savedQuantity := quantity;
    }

    /** onClick of the favourite button: flip membership, then save the favourites. */
    method OnFavoriteClick() returns (toast: FavoriteToast)
      modifies this`favorites, this`savedFavorites
      ensures favorites == Toggled(old(favorites), recipeId)
      ensures savedFavorites == favorites
      ensures toast == AddedToFavorites <==> recipeId in favorites
      ensures toast == RemovedFromFavorites <==> recipeId in old(favorites)
    {
      if recipeId in favorites {
        favorites := favorites - {recipeId};
        toast := RemovedFromFavorites;
      } else {
        favorites := favorites + {recipeId};
        toast := AddedToFavorites;
      }
      savedFavorites := favorites;
    }

    /**
     * onItemSelected of the spinner: store (byte) position as the quantity,
     * save it, and report the change against the quantity read beforehand.
     */
    method OnItemSelected(position: int) returns (toast: QuantityToast)
      modifies this`quantity, this`savedQuantity
      ensures quantity == ToByte(position) && savedQuantity == quantity
      ensures 0 <= position <= MAX_QUANTITY ==> quantity == position
      ensures toast == QuantityChange(old(quantity), position)
    {
      var currentQty := quantity;
      quantity := ToByte(position);
      savedQuantity := quantity;
      toast := QuantityChange(currentQty, position);
    }
  }
}

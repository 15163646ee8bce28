/**
 * The cooking-time text both recipe screens build: the three minute counts of
 * a recipe summed into a 16-bit total, shown as "<h> hour(s) <m> min", and a
 * reader that recovers the minute total from such a text.
 */
module TimeText {
  import opened Optional
  import opened JavaLang

  /**
   * A recipe's time as three minute counts. The Java code sums them and casts
   * the sum to short; whatever integer type the fields have (up to 32 bits),
   * only the low 16 bits of the true sum survive that cast, so the counts are
   * kept here as plain integers.
   */
  datatype RecipeTime = RecipeTime(prepTimeInMin: int, inactivePrepTimeInMin: int, cookTimeInMin: int)

  function Sum(t: RecipeTime): int {
    t.prepTimeInMin + t.inactivePrepTimeInMin + t.cookTimeInMin
  }

  /** (short) (prep + inactive prep + cook): the sum wrapped to 16 bits. */
  function TotalMinutes(t: RecipeTime): (total: short)
    ensures (Sum(t) - total) % 0x1_0000 == 0
    ensures -0x8000 <= Sum(t) < 0x8000 ==> total == Sum(t)
  {
    ToShort(Sum(t))
  }

  /** The hours part: nothing for 0 hours, else the count, its label and a space. */
  function HoursText(hours: int, hourLabel: string, hoursLabel: string): (r: string)
    ensures r == "" <==> hours == 0
    ensures r != "" ==> r[0] != ' ' && r[|r| - 1] == ' '
    ensures r != "" ==> |IntToString(hours)| < |r| && r[..|IntToString(hours)|] == IntToString(hours)
  {
    if hours == 0 then ""
    else if hours == 1 then IntToString(hours) + " " + hourLabel + " "
    else IntToString(hours) + " " + hoursLabel + " "
  }

  /**
   * Reads a time text back: "<m> <min>" gives m, and "<h> <label> <m> <min>"
   * gives h * 60 + m when the label is the singular one for h == 1 and the
   * plural one otherwise; anything else gives None.
   */
  function ReadTime(s: string, hourLabel: string, hoursLabel: string, minLabel: string): Option<int> {
    var ws := Split(s);
    if |ws| == 2 && ws[1] == minLabel then ParseInt(ws[0])
    else if |ws| == 4 && ws[3] == minLabel then
      match (ParseInt(ws[0]), ParseInt(ws[2]))
      case (Some(h), Some(m)) =>
        if ws[1] == (if h == 1 then hourLabel else hoursLabel) then Some(h * 60 + m) else None
      case _ => None
    else None
  }

  predicate IsLabel(w: string) {
    w != "" && ' ' !in w
  }

  /** "<m> <min>" reads back as m. */
  lemma ReadMinutes(m: int, hourLabel: string, hoursLabel: string, minLabel: string)
    requires INT_MIN <= m <= INT_MAX
    requires IsLabel(minLabel)
    ensures ReadTime(IntToString(m) + " " + minLabel, hourLabel, hoursLabel, minLabel) == Some(m)
  {
    var toks := [IntToString(m), minLabel];
    assert Join(toks) == IntToString(m) + " " + minLabel;
    SplitJoin(toks);
    ParseIntToString(m);
  }

  /** "<h> <label> <m> <min>", with the label for h, reads back as h * 60 + m. */
  lemma ReadHoursMinutes(h: int, lbl: string, m: int, hourLabel: string, hoursLabel: string, minLabel: string)
    requires INT_MIN <= h <= INT_MAX && INT_MIN <= m <= INT_MAX
    requires lbl == (if h == 1 then hourLabel else hoursLabel)
    requires IsLabel(lbl) && IsLabel(minLabel)
    ensures ReadTime(IntToString(h) + " " + lbl + " " + IntToString(m) + " " + minLabel,
                     hourLabel, hoursLabel, minLabel) == Some(h * 60 + m)
  {
    var hs, ms := IntToString(h), IntToString(m);
    var s := hs + " " + lbl + " " + ms + " " + minLabel;
    assert Split(s) == [hs, lbl, ms, minLabel] by {
      var toks := [hs, lbl, ms, minLabel];
      assert forall i :: 0 <= i < |toks| ==> toks[i] != "" && ' ' !in toks[i];
      JoinFour(hs, lbl, ms, minLabel);
      SplitJoin(toks);
    }
    ParseIntToString(h);
    ParseIntToString(m);
    ReadFourWords(s, h, lbl, m, hourLabel, hoursLabel, minLabel);
  }

  /** The label must agree with the count: "<h> <label> <m> <min>" with the other label is refused. */
  lemma WrongLabelRefused(h: int, lbl: string, m: int, hourLabel: string, hoursLabel: string, minLabel: string)
    requires INT_MIN <= h <= INT_MAX && INT_MIN <= m <= INT_MAX
    requires lbl != (if h == 1 then hourLabel else hoursLabel)
    requires IsLabel(lbl) && IsLabel(minLabel)
    ensures ReadTime(IntToString(h) + " " + lbl + " " + IntToString(m) + " " + minLabel,
                     hourLabel, hoursLabel, minLabel) == None
  {
    var hs, ms := IntToString(h), IntToString(m);
    var s := hs + " " + lbl + " " + ms + " " + minLabel;
    assert Split(s) == [hs, lbl, ms, minLabel] by {
      var toks := [hs, lbl, ms, minLabel];
      assert forall i :: 0 <= i < |toks| ==> toks[i] != "" && ' ' !in toks[i];
      JoinFour(hs, lbl, ms, minLabel);
      SplitJoin(toks);
    }
    ParseIntToString(h);
    ParseIntToString(m);
  }

  lemma ReadFourWords(s: string, h: int, lbl: string, m: int, hourLabel: string, hoursLabel: string, minLabel: string)
    requires lbl == (if h == 1 then hourLabel else hoursLabel)
    requires var ws := Split(s); |ws| == 4 && ws[1] == lbl && ws[3] == minLabel
    requires ParseInt(Split(s)[0]) == Some(h) && ParseInt(Split(s)[2]) == Some(m)
    ensures ReadTime(s, hourLabel, hoursLabel, minLabel) == Some(h * 60 + m)
  {
  }

  lemma JoinFour(a: string, b: string, c: string, d: string)
    ensures Join([a, b, c, d]) == a + " " + b + " " + c + " " + d
  {
    var toks := [a, b, c, d];
    assert Join(toks[3..]) == d;
    assert Join(toks[2..]) == c + " " + d;
    assert Join(toks[1..]) == b + " " + c + " " + d;
  }

  /** An hours part followed by "<m> <min>" reads back as h * 60 + m. */
  lemma ReadTimeOf(h: int, m: int, hourLabel: string, hoursLabel: string, minLabel: string)
    requires INT_MIN <= h <= INT_MAX && INT_MIN <= m <= INT_MAX
    requires IsLabel(hourLabel) && IsLabel(hoursLabel) && IsLabel(minLabel)
    ensures ReadTime(HoursText(h, hourLabel, hoursLabel) + IntToString(m) + " " + minLabel,
                     hourLabel, hoursLabel, minLabel) == Some(h * 60 + m)
  {
    var ms := IntToString(m);
    if h == 0 {
      assert HoursText(h, hourLabel, hoursLabel) + ms + " " + minLabel == ms + " " + minLabel;
      ReadMinutes(m, hourLabel, hoursLabel, minLabel);
    } else {
      var lbl := if h == 1 then hourLabel else hoursLabel;
      assert HoursText(h, hourLabel, hoursLabel) + ms + " " + minLabel
          == IntToString(h) + " " + lbl + " " + ms + " " + minLabel;
      ReadHoursMinutes(h, lbl, m, hourLabel, hoursLabel, minLabel);
    }
  }

  /** A text ending in " <min>" has that suffix at its last |min| + 1 characters. */
  lemma EndsWithWord(prefix: string, w: string, s: string)
    requires s == prefix + " " + w
    ensures |s| > |w| && s[|s| - |w| - 1..] == " " + w
  {
    assert s[|prefix|..] == " " + w;
  }

  /** A time text never starts with a space. */
  lemma TimeTextStart(h: int, m: int, hourLabel: string, hoursLabel: string, minLabel: string)
    ensures var s := HoursText(h, hourLabel, hoursLabel) + IntToString(m) + " " + minLabel;
            |s| > 0 && s[0] != ' '
  {
    var hs := HoursText(h, hourLabel, hoursLabel);
    var ms := IntToString(m);
    if h == 0 {
      assert (hs + ms + " " + minLabel)[0] == ms[0];
    } else {
      assert hs[0] == IntToString(h)[0];
      assert (hs + ms + " " + minLabel)[0] == hs[0];
    }
  }
}

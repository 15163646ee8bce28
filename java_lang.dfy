/**
 * The pieces of java.lang the recipe code leans on, stated exactly:
 * the narrowing casts (short) and (byte), the truncating `/` and `%` on int,
 * Integer.toString / string concatenation of an int, Integer.valueOf,
 * String.split(" ") and String.toLowerCase(Locale.US) (restricted to ASCII).
 */
module JavaLang {
  import opened Optional

  const INT_MIN: int := -0x8000_0000
  const INT_MAX: int := 0x7fff_ffff

  type short = x: int | -0x8000 <= x < 0x8000
  type byte = x: int | -0x80 <= x < 0x80

  // ---------------------------------------------------------------------------
  // Narrowing casts: keep the low 16 (or 8) bits, read them as two's complement.
  // ---------------------------------------------------------------------------

  function ToShort(x: int): (r: short)
    ensures (x - r) % 0x1_0000 == 0
    ensures -0x8000 <= x < 0x8000 ==> r == x
  {
    (x + 0x8000) % 0x1_0000 - 0x8000
  }

  function ToByte(x: int): (r: byte)
    ensures (x - r) % 0x100 == 0
    ensures -0x80 <= x < 0x80 ==> r == x
  {
    (x + 0x80) % 0x100 - 0x80
  }

  // ---------------------------------------------------------------------------
  // Java's integer `/` and `%` truncate toward zero (Dafny's are Euclidean).
  // ---------------------------------------------------------------------------

  /** a / b in Java, for a positive divisor. */
  function Quot(a: int, b: int): (q: int)
    requires b > 0
    ensures a >= 0 ==> 0 <= a - q * b < b
    ensures a < 0 ==> -b < a - q * b <= 0
  {
    if a >= 0 then a / b else -((-a) / b)
  }

  /** a % b in Java, for a positive divisor: (a / b) * b + a % b == a. */
  function Rem(a: int, b: int): (r: int)
    requires b > 0
    ensures Quot(a, b) * b + r == a
    ensures -b < r < b
    ensures a >= 0 ==> r >= 0
    ensures a <= 0 ==> r <= 0
  {
    if a >= 0 then a % b else -((-a) % b)
  }

  // ---------------------------------------------------------------------------
  // Decimal rendering of an int ("" + n) and Integer.valueOf(String).
  // ---------------------------------------------------------------------------

  predicate IsDigit(c: char) {
    '0' <= c <= '9'
  }

  predicate AllDigits(s: string) {
    forall i :: 0 <= i < |s| ==> IsDigit(s[i])
  }

  function DigitChar(d: int): (c: char)
    requires 0 <= d < 10
    ensures IsDigit(c) && c as int - '0' as int == d
  {
    ('0' as int + d) as char
  }

  /** The decimal digits of n, most significant first, without leading zeros. */
  function NatToString(n: nat): (s: string)
    ensures |s| > 0 && AllDigits(s)
    ensures |s| > 1 ==> s[0] != '0'
    decreases n
  {
    if n < 10 then [DigitChar(n)] else NatToString(n / 10) + [DigitChar(n % 10)]
  }

  /** What Java appends to a string for an int operand. */
  function IntToString(n: int): (s: string)
    ensures |s| > 0 && ' ' !in s
    ensures n < 0 <==> s[0] == '-'
  {
    if n < 0 then "-" + NatToString(-n) else NatToString(n)
  }

  /** The value of a run of decimal digits (0 for the empty run). */
  function DigitsValue(s: string): (v: nat)
    requires AllDigits(s)
    decreases |s|
  {
    if |s| == 0 then 0
    else DigitsValue(s[..|s| - 1]) * 10 + (s[|s| - 1] as int - '0' as int)
  }

  /**
   * Integer.valueOf(String): an optional sign followed by at least one digit,
   * the value within int range; anything else throws NumberFormatException (None).
   */
  function ParseInt(s: string): (r: Option<int>)
    ensures r.Some? ==> INT_MIN <= r.value <= INT_MAX
    ensures r.Some? ==> |s| > 0 && ' ' !in s
  {
    if |s| == 0 then None
    else
      var signed := s[0] == '-' || s[0] == '+';
      var digits := if signed then s[1..] else s;
      if |digits| == 0 || !AllDigits(digits) then None
      else
        var v: int := if s[0] == '-' then -(DigitsValue(digits) as int) else DigitsValue(digits);
        if INT_MIN <= v <= INT_MAX then Some(v) else None
  }

  lemma {:induction false} DigitsOfNat(n: nat)
    ensures DigitsValue(NatToString(n)) == n
    decreases n
  {
    var s := NatToString(n);
    if n >= 10 {
      DigitsOfNat(n / 10);
      assert s[..|s| - 1] == NatToString(n / 10);
    }
  }

  /** Integer.valueOf reads back every int that Java prints. */
  lemma ParseIntToString(n: int)
    requires INT_MIN <= n <= INT_MAX
    ensures ParseInt(IntToString(n)) == Some(n)
  {
    var s := IntToString(n);
    if n < 0 {
      var d := NatToString(-n);
      DigitsOfNat(-n);
      assert s[0] == '-' && s[1..] == d;
      assert ParseInt(s) == Some(-(DigitsValue(d) as int));
    } else {
      DigitsOfNat(n);
      assert IsDigit(s[0]);
      assert ParseInt(s) == Some(DigitsValue(s) as int);
    }
  }

  // ---------------------------------------------------------------------------
  // String.length(): UTF-16 code units, so a character beyond U+FFFF counts 2.
  // ---------------------------------------------------------------------------

  /** The UTF-16 code units of one character: a surrogate pair beyond U+FFFF. */
  function Utf16Units(c: char): (n: nat)
    ensures n == 1 <==> c as int < 0x1_0000
    ensures n == 2 <==> c as int >= 0x1_0000
  {
    if c as int < 0x1_0000 then 1 else 2
  }

  /** s.length(): between one and two units per character, one each exactly on the BMP. */
  function Utf16Length(s: string): (n: nat)
    ensures |s| <= n <= 2 * |s|
    ensures n == |s| <==> forall i :: 0 <= i < |s| ==> s[i] as int < 0x1_0000
  {
    if s == [] then 0
    else
      var n := Utf16Units(s[0]) + Utf16Length(s[1..]);
      assert forall i :: 1 <= i < |s| ==> s[i] == s[1..][i - 1];
      n
  }

  // ---------------------------------------------------------------------------
  // String.toLowerCase(Locale.US), on the ASCII letters.
  // ---------------------------------------------------------------------------

  function LowerChar(c: char): (d: char)
    ensures d == ' ' <==> c == ' '
  {
    if 'A' <= c <= 'Z' then (c as int + 32) as char else c
  }

  function Lower(s: string): (r: string)
    ensures |r| == |s|
    ensures ' ' in r <==> ' ' in s
    decreases |s|
  {
    if |s| == 0 then [] else [LowerChar(s[0])] + Lower(s[1..])
  }

  function LowerAll(ws: seq<string>): (r: seq<string>)
    ensures |r| == |ws|
    ensures forall i :: 0 <= i < |ws| ==> r[i] == Lower(ws[i])
  {
    seq(|ws|, i requires 0 <= i < |ws| => Lower(ws[i]))
  }

  lemma {:induction false} LowerIdempotent(s: string)
    ensures Lower(Lower(s)) == Lower(s)
    decreases |s|
  {
    if |s| > 0 {
      LowerIdempotent(s[1..]);
    }
  }

  // ---------------------------------------------------------------------------
  // String.split(" "): cut at every single space, keep leading and inner empty
  // pieces, drop trailing empty pieces; a string without a space comes back whole.
  // ---------------------------------------------------------------------------

  /** Every piece between single spaces, empty ones included. */
  function Pieces(s: string): (ps: seq<string>)
    ensures |ps| >= 1
    ensures forall i :: 0 <= i < |ps| ==> ' ' !in ps[i]
    decreases |s|
  {
    if |s| == 0 then [""]
    else
      var rest := Pieces(s[1..]);
      if s[0] == ' ' then [""] + rest
      else [[s[0]] + rest[0]] + rest[1..]
  }

  /** The pieces glued back with single spaces. */
  function Join(ps: seq<string>): string
    requires |ps| >= 1
    decreases |ps|
  {
    if |ps| == 1 then ps[0] else ps[0] + " " + Join(ps[1..])
  }

  function DropTrailingEmpty(ps: seq<string>): (r: seq<string>)
    ensures |r| <= |ps| && r == ps[..|r|]
    ensures |r| > 0 ==> r[|r| - 1] != ""
    ensures forall i :: |r| <= i < |ps| ==> ps[i] == ""
    decreases |ps|
  {
    if |ps| > 0 && ps[|ps| - 1] == "" then DropTrailingEmpty(ps[..|ps| - 1]) else ps
  }

  function Split(s: string): (ws: seq<string>)
    ensures forall i :: 0 <= i < |ws| ==> ' ' !in ws[i]
  {
    if ' ' !in s then [s] else DropTrailingEmpty(Pieces(s))
  }

  /** Pieces loses nothing: joining them restores the string. */
  lemma {:induction false} JoinPieces(s: string)
    ensures Join(Pieces(s)) == s
    decreases |s|
  {
    if |s| > 0 {
      var rest := Pieces(s[1..]);
      JoinPieces(s[1..]);
      if s[0] == ' ' {
        assert Pieces(s) == [""] + rest;
        assert Join(Pieces(s)) == "" + " " + Join(rest);
        assert s == [s[0]] + s[1..];
      } else {
        var ps := Pieces(s);
        assert ps == [[s[0]] + rest[0]] + rest[1..];
        if |rest| == 1 {
          assert Join(ps) == [s[0]] + rest[0];
        } else {
          assert ps[1..] == rest[1..];
          assert Join(ps) == [s[0]] + rest[0] + " " + Join(rest[1..]);
        }
        assert s == [s[0]] + s[1..];
      }
    }
  }

  /** A space-free prefix glues onto the first piece of what follows. */
  lemma {:induction false} PiecesPrefix(a: string, b: string)
    requires ' ' !in a
    ensures Pieces(a + b) == [a + Pieces(b)[0]] + Pieces(b)[1..]
    decreases |a|
  {
    if |a| > 0 {
      PiecesPrefix(a[1..], b);
      assert (a + b)[1..] == a[1..] + b;
      assert (a + b)[0] == a[0];
      assert [a[0]] + (a[1..] + Pieces(b)[0]) == a + Pieces(b)[0];
    } else {
      assert a + b == b;
      assert a + Pieces(b)[0] == Pieces(b)[0];
      assert [Pieces(b)[0]] + Pieces(b)[1..] == Pieces(b);
    }
  }

  lemma PiecesOfWord(a: string)
    requires ' ' !in a
    ensures Pieces(a) == [a]
  {
    PiecesPrefix(a, "");
    assert Pieces("") == [""];
    assert a + "" == a;
  }

  /** Pieces undoes Join on space-free tokens. */
  lemma {:induction false} PiecesJoin(toks: seq<string>)
    requires |toks| >= 1
    requires forall i :: 0 <= i < |toks| ==> ' ' !in toks[i]
    ensures Pieces(Join(toks)) == toks
    decreases |toks|
  {
    if |toks| == 1 {
      PiecesOfWord(toks[0]);
    } else {
      PiecesJoin(toks[1..]);
      var rest := Join(toks[1..]);
      assert (" " + rest)[0] == ' ' && (" " + rest)[1..] == rest;
      var p := Pieces(" " + rest);
      assert p == [""] + Pieces(rest);
      assert p[0] == "" && p[1..] == toks[1..];
      assert toks[0] + "" == toks[0];
      PiecesPrefix(toks[0], " " + rest);
      assert toks[0] + " " + rest == toks[0] + (" " + rest);
      assert toks == [toks[0]] + toks[1..];
    }
  }

  lemma {:induction false} SpaceInJoin(toks: seq<string>)
    requires |toks| >= 2
    ensures ' ' in Join(toks)
  {
    assert Join(toks) == toks[0] + " " + Join(toks[1..]);
    assert Join(toks)[|toks[0]|] == ' ';
  }

  /** split(" ") reads back a single-space-separated list of non-empty words. */
  lemma SplitJoin(toks: seq<string>)
    requires |toks| >= 1
    requires forall i :: 0 <= i < |toks| ==> toks[i] != "" && ' ' !in toks[i]
    ensures Split(Join(toks)) == toks
  {
    if |toks| >= 2 {
      SpaceInJoin(toks);
      PiecesJoin(toks);
    }
  }

  /** A string made only of spaces (at least one) splits into no words at all. */
  lemma {:induction false} SplitOfSpaces(s: string)
    requires |s| > 0 && forall i :: 0 <= i < |s| ==> s[i] == ' '
    ensures Split(s) == []
  {
    assert s[0] == ' ';
    PiecesOfSpaces(s);
  }

  lemma {:induction false} PiecesOfSpaces(s: string)
    requires forall i :: 0 <= i < |s| ==> s[i] == ' '
    ensures forall i :: 0 <= i < |Pieces(s)| ==> Pieces(s)[i] == ""
    decreases |s|
  {
    if |s| > 0 {
      PiecesOfSpaces(s[1..]);
    }
  }

  /** Lower-casing commutes with cutting at spaces. */
  lemma {:induction false} PiecesLower(s: string)
    ensures Pieces(Lower(s)) == LowerAll(Pieces(s))
    decreases |s|
  {
    if |s| > 0 {
      PiecesLower(s[1..]);
      var t := Lower(s);
      assert t[0] == LowerChar(s[0]) && t[1..] == Lower(s[1..]);
      var rest := Pieces(s[1..]);
      if s[0] != ' ' {
        assert Lower([s[0]] + rest[0]) == [LowerChar(s[0])] + Lower(rest[0]) by {
          assert ([s[0]] + rest[0])[1..] == rest[0];
        }
      }
    }
  }

  lemma {:induction false} DropLower(ps: seq<string>)
    ensures DropTrailingEmpty(LowerAll(ps)) == LowerAll(DropTrailingEmpty(ps))
    decreases |ps|
  {
    if |ps| > 0 {
      assert LowerAll(ps)[..|ps| - 1] == LowerAll(ps[..|ps| - 1]);
      assert Lower(ps[|ps| - 1]) == "" <==> ps[|ps| - 1] == "";
      DropLower(ps[..|ps| - 1]);
    }
  }

  /**
   * Lower-casing a whole query and then splitting it gives the same words as
   * splitting a text and lower-casing each word, as the index does.
   */
  lemma SplitLower(s: string)
    ensures Split(Lower(s)) == LowerAll(Split(s))
  {
    if ' ' in s {
      PiecesLower(s);
      DropLower(Pieces(s));
    }
  }

  /** The empty string is one empty word; a string of spaces is no word at all. */
  lemma SplitEmptyAndBlank()
    ensures Split("") == [""]
    ensures Split("   ") == []
  {
    SplitOfSpaces("   ");
  }

  /** Two spaces in a row leave an empty word between them. */
  lemma SplitDoubleSpace()
    ensures Split("a  b") == ["a", "", "b"]
  {
    assert "a  b"[1] == ' ';
    PiecesOfWord("b");
    assert " b"[0] == ' ' && " b"[1..] == "b";
    assert Pieces(" b") == ["", "b"];
    assert "  b"[0] == ' ' && "  b"[1..] == " b";
    assert Pieces("  b") == ["", "", "b"];
    assert "a  b" == "a" + "  b";
    PiecesPrefix("a", "  b");
    assert "a" + "" == "a";
    assert Pieces("a  b") == ["a", "", "b"];
    assert DropTrailingEmpty(["a", "", "b"]) == ["a", "", "b"];
  }

  /** A leading space gives a leading empty word. */
  lemma SplitLeadingSpace()
    ensures Split(" a") == ["", "a"]
  {
    assert " a"[0] == ' ' && " a"[1..] == "a";
    PiecesOfWord("a");
  }

  /** The raw pieces of a text with two trailing spaces. */
  lemma PiecesTrailingSpaces()
    ensures Pieces("a b  ") == ["a", "b", "", ""]
  {
    assert "  "[0] == ' ' && "  "[1..] == " ";
    assert " "[0] == ' ' && " "[1..] == "";
    assert Pieces(" ") == ["", ""];
    assert Pieces("  ") == ["", "", ""];
    assert "a b  " == "a" + (" " + ("b" + "  "));
    PiecesPrefix("b", "  ");
    assert "b" + "" == "b";
    assert (" " + ("b" + "  "))[0] == ' ' && (" " + ("b" + "  "))[1..] == "b" + "  ";
    assert Pieces(" " + ("b" + "  ")) == ["", "b", "", ""];
    PiecesPrefix("a", " " + ("b" + "  "));
    assert "a" + "" == "a";
  }

  /** Trailing spaces give no trailing empty words. */
  lemma SplitTrailingSpaces()
    ensures Split("a b  ") == ["a", "b"]
  {
    assert "a b  "[1] == ' ';
    PiecesTrailingSpaces();
    assert ["a", "b", "", ""][..3] == ["a", "b", ""];
    assert ["a", "b", ""][..2] == ["a", "b"];
  }
}

/**
 * Model of app/helpers/food_dict_helper.py: rendering an order (a mapping of
 * food item to quantity) as `"<qty> <item>, <qty> <item>, ..."`.
 *
 * The Python dict is modelled as the sequence of its `(key, value)` pairs in
 * iteration order, so that the order of the pieces is explicit. Quantities
 * are integers; Python's `f"{int(value)}"` is then the decimal rendering of
 * the integer, with a leading `-` for a negative one.
 */
module FoodDictHelper {
  import opened Wrappers

  // ---------------------------------------------------------------------
  // Decimal rendering of integers, as Python's str(int)
  // ---------------------------------------------------------------------

  predicate IsDigit(c: char) { '0' <= c <= '9' }

  predicate IsDigits(s: string) { forall i :: 0 <= i < |s| ==> IsDigit(s[i]) }

  function DigitChar(d: nat): (c: char)
    requires d < 10
    ensures IsDigit(c) && c as int - '0' as int == d
  {
    ('0' as int + d) as char
  }

  function DigitValue(c: char): (d: nat)
    requires IsDigit(c)
    ensures d < 10 && DigitChar(d) == c
  {
    c as int - '0' as int
  }

  /** The decimal digits of `n`, most significant first, without leading zeros. */
  function NatToDecimal(n: nat): (s: string)
    ensures |s| >= 1 && IsDigits(s)
    ensures s[0] == '0' ==> n == 0
    decreases n
  {
    if n < 10 then [DigitChar(n)] else NatToDecimal(n / 10) + [DigitChar(n % 10)]
  }

  /** Python's `str(n)` for an integer `n`. */
  function IntToDecimal(n: int): (s: string)
    ensures |s| >= 1
    ensures s[0] == '-' <==> n < 0
    ensures forall i :: 0 < i < |s| ==> IsDigit(s[i])
  {
    if n < 0 then "-" + NatToDecimal(-n) else NatToDecimal(n)
  }

  /** The value of a string of decimal digits (the empty string has value 0). */
  function DecimalValue(s: string): nat
    requires IsDigits(s)
    decreases |s|
  {
    if s == [] then 0 else 10 * DecimalValue(s[..|s| - 1]) + DigitValue(s[|s| - 1])
  }

  /** Reads back what IntToDecimal writes: an optional `-` followed by digits. */
  function ParseInt(s: string): Option<int>
  {
    if |s| >= 2 && s[0] == '-' && IsDigits(s[1..]) then Some(0 - DecimalValue(s[1..]) as int)
    else if |s| >= 1 && IsDigits(s) then Some(DecimalValue(s))
    else None
  }

  lemma {:induction false} NatToDecimalValue(n: nat)
    ensures DecimalValue(NatToDecimal(n)) == n
    decreases n
  {
    var s := NatToDecimal(n);
    if n >= 10 {
      NatToDecimalValue(n / 10);
      assert s[..|s| - 1] == NatToDecimal(n / 10);
    }
  }

  /** Rendering an integer in decimal loses nothing. */
  lemma IntToDecimalRoundTrip(n: int)
    ensures ParseInt(IntToDecimal(n)) == Some(n)
  {
    var s := IntToDecimal(n);
    if n < 0 {
      assert s[1..] == NatToDecimal(-n);
      NatToDecimalValue(-n);
    } else {
      NatToDecimalValue(n);
    }
  }

  // ---------------------------------------------------------------------
  // Pieces and the join
  // ---------------------------------------------------------------------

  /** One piece of the summary: the quantity, a space, then the item. */
  function Piece(item: string, quantity: int): string
  {
    IntToDecimal(quantity) + " " + item
  }

  /** The pieces of an order, one per entry, in iteration order. */
  function Pieces(foodDict: seq<(string, int)>): (ps: seq<string>)
    ensures |ps| == |foodDict|
  {
    seq(|foodDict|, i requires 0 <= i < |foodDict| => Piece(foodDict[i].0, foodDict[i].1))
  }

  /** Python's `sep.join(parts)`. */
  function Join(sep: string, parts: seq<string>): (r: string)
    ensures parts == [] ==> r == ""
    ensures parts != [] ==> parts[0] <= r
    decreases |parts|
  {
    if |parts| == 0 then ""
    else if |parts| == 1 then parts[0]
    else parts[0] + sep + Join(sep, parts[1..])
  }

  /** get_str_from_food_dict: the pieces joined with ", ". */
  function GetStrFromFoodDict(foodDict: seq<(string, int)>): (r: string)
    ensures r == "" <==> foodDict == []
    ensures |foodDict| == 1 ==> r == IntToDecimal(foodDict[0].1) + " " + foodDict[0].0
  {
    Join(", ", Pieces(foodDict))
  }

  // ---------------------------------------------------------------------
  // Properties of the summary
  // ---------------------------------------------------------------------

  lemma {:induction false} JoinAppend(sep: string, a: seq<string>, b: seq<string>)
    requires a != [] && b != []
    ensures Join(sep, a + b) == Join(sep, a) + sep + Join(sep, b)
    decreases |a|
  {
    if |a| == 1 {
      assert (a + b)[1..] == b;
    } else {
      assert (a + b)[1..] == a[1..] + b;
      JoinAppend(sep, a[1..], b);
    }
  }

  lemma PiecesAppend(a: seq<(string, int)>, b: seq<(string, int)>)
    ensures Pieces(a + b) == Pieces(a) + Pieces(b)
  {
    var l, r := Pieces(a + b), Pieces(a) + Pieces(b);
    forall i | 0 <= i < |a| + |b| ensures l[i] == r[i] {
      if i < |a| {
        assert (a + b)[i] == a[i];
      } else {
        assert (a + b)[i] == b[i - |a|];
      }
    }
  }

  /**
   * The summary of a concatenation is the summary of each part, joined by
   * ", ": every piece appears, in its entry's position.
   */
  lemma FormatAppend(a: seq<(string, int)>, b: seq<(string, int)>)
    requires a != [] && b != []
    ensures GetStrFromFoodDict(a + b) == GetStrFromFoodDict(a) + ", " + GetStrFromFoodDict(b)
  {
    PiecesAppend(a, b);
    JoinAppend(", ", Pieces(a), Pieces(b));
  }

  /** The summary of `[e] + rest` starts with e's piece. */
  lemma FormatCons(e: (string, int), rest: seq<(string, int)>)
    requires rest != []
    ensures GetStrFromFoodDict([e] + rest) == IntToDecimal(e.1) + " " + e.0 + ", " + GetStrFromFoodDict(rest)
  {
    FormatAppend([e], rest);
  }

  function SumLengths(parts: seq<string>): nat
  {
    if parts == [] then 0 else |parts[0]| + SumLengths(parts[1..])
  }

  lemma {:induction false} JoinLength(sep: string, parts: seq<string>)
    requires parts != []
    ensures |Join(sep, parts)| == SumLengths(parts) + |sep| * (|parts| - 1)
    decreases |parts|
  {
    if |parts| > 1 {
      JoinLength(sep, parts[1..]);
    }
  }

  /** n pieces are separated by n - 1 two-character separators. */
  lemma FormatLength(foodDict: seq<(string, int)>)
    requires foodDict != []
    ensures |GetStrFromFoodDict(foodDict)| == SumLengths(Pieces(foodDict)) + 2 * (|foodDict| - 1)
  {
    JoinLength(", ", Pieces(foodDict));
  }

  // ---------------------------------------------------------------------
  // A piece can be read back
  // ---------------------------------------------------------------------

  /** Index of the first space in `s` at or after `from`. */
  function FirstSpace(s: string, from: nat): (k: Option<nat>)
    requires from <= |s|
    ensures k.Some? ==> from <= k.value < |s| && s[k.value] == ' '
    ensures k.Some? ==> forall j :: from <= j < k.value ==> s[j] != ' '
    ensures k.None? ==> forall j :: from <= j < |s| ==> s[j] != ' '
    decreases |s| - from
  {
    if from == |s| then None
    else if s[from] == ' ' then Some(from)
    else FirstSpace(s, from + 1)
  }

  /** Splits a piece at its first space into the item and the quantity. */
  function ParsePiece(p: string): Option<(string, int)>
  {
    match FirstSpace(p, 0)
    case None => None
    case Some(k) =>
      match ParseInt(p[..k])
      case None => None
      case Some(q) => Some((p[k + 1..], q))
  }

  /** A decimal quantity has no space, so the first space of a piece ends it. */
  lemma PieceRoundTrip(item: string, quantity: int)
    ensures ParsePiece(Piece(item, quantity)) == Some((item, quantity))
  {
    var d := IntToDecimal(quantity);
    var p := Piece(item, quantity);
    assert p[|d|] == ' ';
    assert forall j :: 0 <= j < |d| ==> p[j] == d[j] && d[j] != ' ';
    assert FirstSpace(p, 0) == Some(|d|);
    assert p[..|d|] == d;
    assert p[|d| + 1..] == item;
    IntToDecimalRoundTrip(quantity);
  }

  /** Every piece of an order reads back as its entry. */
  lemma PiecesRoundTrip(foodDict: seq<(string, int)>)
    ensures forall k :: 0 <= k < |foodDict| ==> ParsePiece(Pieces(foodDict)[k]) == Some(foodDict[k])
  {
    forall k | 0 <= k < |foodDict| ensures ParsePiece(Pieces(foodDict)[k]) == Some(foodDict[k]) {
      PieceRoundTrip(foodDict[k].0, foodDict[k].1);
    }
  }

  // ---------------------------------------------------------------------
  // Worked examples
  // ---------------------------------------------------------------------

  lemma FormatEmptyAndSingle()
    ensures GetStrFromFoodDict([]) == ""
    ensures GetStrFromFoodDict([("rice", 1)]) == "1 rice"
  {
  }

  lemma FormatTwoEntries()
    ensures GetStrFromFoodDict([("rice", 2), ("beans", 3)]) == "2 rice, 3 beans"
  {
    FormatCons(("rice", 2), [("beans", 3)]);
  }

  lemma FormatNegativeQuantity()
    ensures GetStrFromFoodDict([("tea", -12)]) == "-12 tea"
  {
    assert NatToDecimal(12) == "12" by {
      assert NatToDecimal(1) == "1";
    }
  }
}

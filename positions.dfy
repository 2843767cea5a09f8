/**
  format_nasal_or_devoiced_positions from database.py: the corpus writes the
  1-based mora positions that are nasal or devoiced as decimal numbers
  separated by 0 digits, with a trailing "10" standing for position 10.
*/
module Positions {
  import opened Text

  predicate IsDigit(c: char)
  {
    '0' <= c <= '9'
  }

  predicate AllDigits(s: string)
  {
    forall i :: 0 <= i < |s| ==> IsDigit(s[i])
  }

  /** The value of a run of ASCII digits, most significant first. */
  function DigitsValue(s: string): nat
    requires AllDigits(s)
  {
    if s == "" then 0 else DigitsValue(s[..|s| - 1]) * 10 + (s[|s| - 1] as int - '0' as int)
  }

  /** int(s) on a piece of the code: None is the ValueError for anything but ASCII digits. */
  function ParseInt(s: string): Option<nat>
  {
    if s != "" && AllDigits(s) then Some(DigitsValue(s)) else None
  }

  /** The non-empty pieces converted to integers, in order: None when one of the conversions raises. */
  function ParsePieces(pieces: seq<string>): Option<seq<nat>>
  {
    if pieces == [] then Some([])
    else
      var rest := ParsePieces(pieces[1..]);
      if pieces[0] == "" then rest
      else match ParseInt(pieces[0])
        case None => None
        case Some(v) => if rest.None? then None else Some([v] + rest.value)
  }

  /** A piece between 0 digits that converts is a number of at least 1. */
  lemma {:induction false} PiecesPositive(pieces: seq<string>)
    requires forall i :: 0 <= i < |pieces| ==> '0' !in pieces[i]
    ensures ParsePieces(pieces).Some? ==>
      forall i :: 0 <= i < |ParsePieces(pieces).value| ==> ParsePieces(pieces).value[i] >= 1
    decreases |pieces|
  {
    if pieces != [] {
      PiecesPositive(pieces[1..]);
      var p := pieces[0];
      if p != "" && AllDigits(p) {
        assert p[|p| - 1] in p;
      }
    }
  }

  /** The one empty piece that splitting "" gives converts to no position. */
  lemma ParseEmpty()
    ensures ParsePieces([""]) == Some([])
  {
    assert [""][1..] == [];
  }

  /** format_nasal_or_devoiced_positions(expr), None when int() raises on a piece. */
  function DecodePositions(expr: string): (r: Option<seq<nat>>)
    ensures r.Some? ==> forall i :: 0 <= i < |r.value| ==> r.value[i] >= 1
    ensures expr == "" ==> r == Some([])
  {
    if EndsWith(expr, "10") then
      var pieces := SplitOn(expr[..|expr| - 2], '0');
      PiecesPositive(pieces);
      match ParsePieces(pieces)
      case None => None
      case Some(ps) => Some([10] + ps)
    else
      var pieces := SplitOn(expr, '0');
      PiecesPositive(pieces);
      if expr == "" then
        assert pieces == [""];
        ParseEmpty();
        ParsePieces(pieces)
      else
      ParsePieces(pieces)
  }

  /** The ASCII digit for d < 10. */
  function Digit(d: nat): char
    requires d < 10
  {
    ('0' as int + d) as char
  }

  /** The decimal notation of a positive number. */
  function Decimal(n: nat): (s: string)
    requires n >= 1
    ensures s != "" && AllDigits(s) && DigitsValue(s) == n && s[|s| - 1] == Digit(n % 10)
    decreases n
  {
    if n < 10 then [Digit(n)]
    else
      var s := Decimal(n / 10) + [Digit(n % 10)];
      assert s[..|s| - 1] == Decimal(n / 10);
      s
  }

  /** A position the code can carry between 0 digits: one whose decimal notation has no 0. */
  predicate ZeroFree(n: nat)
    ensures ZeroFree(n) ==> n >= 1
  {
    n >= 1 && '0' !in Decimal(n)
  }

  /** The decimal notations of the positions. */
  function Decimals(ps: seq<nat>): (ds: seq<string>)
    requires forall i :: 0 <= i < |ps| ==> ZeroFree(ps[i])
    ensures |ds| == |ps|
    ensures forall i :: 0 <= i < |ds| ==> ZeroFree(ps[i]) && ds[i] == Decimal(ps[i])
  {
    if ps == [] then [] else assert ZeroFree(ps[0]); [Decimal(ps[0])] + Decimals(ps[1..])
  }

  /** The code for a list of zero-free positions: their decimals joined by 0 digits. */
  function EncodePositions(ps: seq<nat>): string
    requires forall i :: 0 <= i < |ps| ==> ZeroFree(ps[i])
  {
    Join(Decimals(ps), "0")
  }

  lemma {:induction false} ParseDecimals(ps: seq<nat>)
    requires forall i :: 0 <= i < |ps| ==> ZeroFree(ps[i])
    ensures ParsePieces(Decimals(ps)) == Some(ps)
    decreases |ps|
  {
    if ps != [] {
      var ds := Decimals(ps);
      assert ds[1..] == Decimals(ps[1..]);
      ParseDecimals(ps[1..]);
      assert ZeroFree(ps[0]) && ds[0] == Decimal(ps[0]);
      ParseDecimal(ps[0]);
      ParsePiecesCons(ds, ps[0], ps[1..]);
      assert ps == [ps[0]] + ps[1..];
    }
  }

  lemma ParseDecimal(n: nat)
    requires n >= 1
    ensures ParseInt(Decimal(n)) == Some(n)
  {
  }

  lemma ParsePiecesCons(ds: seq<string>, v: nat, vs: seq<nat>)
    requires ds != [] && ds[0] != "" && ParseInt(ds[0]) == Some(v) && ParsePieces(ds[1..]) == Some(vs)
    ensures ParsePieces(ds) == Some([v] + vs)
  {
  }

  /** The code of a non-empty list ends in the last digit of its last position, never in 0. */
  lemma EncodeEnd(ps: seq<nat>)
    requires |ps| >= 1 && forall i :: 0 <= i < |ps| ==> ZeroFree(ps[i])
    ensures !EndsWith(EncodePositions(ps), "10")
  {
    var ds := Decimals(ps);
    JoinEndsWithLast(ds, "0");
    var last := ds[|ds| - 1];
    assert last[|last| - 1] in last;
    var e := EncodePositions(ps);
    assert e[|e| - 1] == last[|last| - 1];
  }

  /** Decoding the code of zero-free positions gives the positions back. */
  lemma DecodeEncode(ps: seq<nat>)
    requires forall i :: 0 <= i < |ps| ==> ZeroFree(ps[i])
    ensures DecodePositions(EncodePositions(ps)) == Some(ps)
  {
    if ps == [] {
      assert EncodePositions(ps) == "";
    } else {
      EncodeEnd(ps);
      SplitOnOfJoin(Decimals(ps), '0');
      ParseDecimals(ps);
    }
  }

  /** A trailing "10" decodes to position 10, listed first. */
  lemma DecodeEncodeTen(ps: seq<nat>)
    requires forall i :: 0 <= i < |ps| ==> ZeroFree(ps[i])
    ensures DecodePositions(EncodePositions(ps) + "10") == Some([10] + ps)
  {
    var e := EncodePositions(ps);
    assert (e + "10")[..|e + "10"| - 2] == e;
    if ps == [] {
      assert e == "";
      assert SplitOn("", '0') == [""];
      ParseEmpty();
    } else {
      SplitOnOfJoin(Decimals(ps), '0');
      ParseDecimals(ps);
    }
  }

  /** "304" lists positions 3 and 4. */
  lemma DecodeExampleTwo(code: string)
    requires code == "304"
    ensures DecodePositions(code) == Some([3, 4])
  {
    assert code == EncodePositions([3, 4]) by {
      assert Decimal(3) == "3" && Decimal(4) == "4";
      assert Decimals([3, 4]) == ["3", "4"];
      assert Join(["3", "4"], "0") == "3" + "0" + Join(["4"], "0");
    }
    DecodeEncode([3, 4]);
  }

  /** "210" lists position 10 first, then 2. */
  lemma DecodeExampleTen(code: string)
    requires code == "210"
    ensures DecodePositions(code) == Some([10, 2])
  {
    assert code == EncodePositions([2]) + "10" by {
      assert Decimal(2) == "2";
      assert Decimals([2]) == ["2"];
      assert EncodePositions([2]) == "2";
    }
    DecodeEncodeTen([2]);
    assert [10] + [2] == [10, 2];
  }
}

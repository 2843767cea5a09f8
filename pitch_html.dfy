/**
  format_entry from database.py: the katakana reading of an accent entry
  rendered as html, with an overline over the high morae, a downstep mark
  after a mora whose accent digit is 2, devoiced morae wrapped as "nopron"
  and a degree sign after nasal morae.

  The output is modelled as a sequence of pieces, each rendered to its fixed
  html text; the properties of the markup are stated on the pieces.
*/
module PitchHtml {
  import opened Text
  import opened Accent
  import opened Positions

  datatype Piece =
    | Open              // <span class="overline">
    | Close             // </span>
    | Mora(c: char, devoiced: bool)
    | Nasal             // <span class="nasal">&#176;</span>
    | Downstep          // </span>&#42780;

  function PieceHtml(p: Piece): string
  {
    match p
    case Open => "<span class=\"overline\">"
    case Close => "</span>"
    case Mora(c, devoiced) => if devoiced then "<span class=\"nopron\">" + [c] + "</span>" else [c]
    case Nasal => "<span class=\"nasal\">&#176;</span>"
    case Downstep => "</span>&#42780;"
  }

  function Html(ps: seq<Piece>): string
  {
    if ps == [] then "" else PieceHtml(ps[0]) + Html(ps[1..])
  }

  lemma {:induction false} HtmlAppend(ps: seq<Piece>, qs: seq<Piece>)
    ensures Html(ps + qs) == Html(ps) + Html(qs)
    decreases |ps|
  {
    if ps == [] {
      assert ps + qs == qs;
    } else {
      assert (ps + qs)[1..] == ps[1..] + qs;
      HtmlAppend(ps[1..], qs);
    }
  }

  /** "0" * n, which is "" for n <= 0. */
  function Zeros(n: int): (z: string)
    ensures |z| == if n < 0 then 0 else n
    ensures forall i :: 0 <= i < |z| ==> z[i] == '0'
    decreases n
  {
    if n <= 0 then "" else Zeros(n - 1) + "0"
  }

  /** The accent pattern left-padded with 0 digits to the number of morae. */
  function AccentPattern(kana: string, accent: string): (p: string)
    ensures |p| == if |kana| > |accent| then |kana| else |accent|
  {
    Zeros(|kana| - |accent|) + accent
  }

  /** The padding is all 0 digits and the accent ends the pattern unchanged. */
  lemma AccentPatternPads(kana: string, accent: string)
    ensures AccentPattern(kana, accent)[|AccentPattern(kana, accent)| - |accent|..] == accent
    ensures forall i :: 0 <= i < |AccentPattern(kana, accent)| - |accent| ==> AccentPattern(kana, accent)[i] == '0'
  {
  }

  function DigitOf(c: char): nat
    requires IsDigit(c)
  {
    c as int - '0' as int
  }

  /**
    One round of the loop: the pieces so far followed by those emitted for
    one mora of accent digit acc, taking the overline flag as it stands
    before the mora.  The overline is opened or closed as the digit asks,
    then come the mora itself, its nasal mark and the downstep.
  */
  function Round(ps: seq<Piece>, flag: bool, acc: nat, c: char, devoiced: bool, nasal: bool): seq<Piece>
  {
    Emit(Overline(ps, flag, acc), acc, c, devoiced, nasal)
  }

  /** Start or end the overline as the digit asks: open it for a raised mora, close it at a 0. */
  function Overline(ps: seq<Piece>, flag: bool, acc: nat): seq<Piece>
  {
    var withOpen := AppendIf(ps, !flag && acc > 0, Open);
    AppendIf(withOpen, (flag || acc > 0) && acc == 0, Close)
  }

  /** The mora itself, its nasal mark, and the downstep for digit 2. */
  function Emit(ps: seq<Piece>, acc: nat, c: char, devoiced: bool, nasal: bool): seq<Piece>
  {
    var withNasal := AppendIf(ps + [Mora(c, devoiced)], nasal, Nasal);
    AppendIf(withNasal, acc == 2, Downstep)
  }

  /** ps, followed by p when b holds. */
  function AppendIf(ps: seq<Piece>, b: bool, p: Piece): seq<Piece>
  {
    if b then ps + [p] else ps
  }

  /** The overline flag after one round, from the flag before it. */
  function FlagAfter(flag: bool, acc: nat): bool
  {
    var raised := flag || acc > 0;
    var stillOpen := raised && acc != 0;
    stillOpen && acc != 2
  }

  /** The loop of format_entry over the first n morae: the pieces so far and the overline flag. */
  function Run(kana: string, pattern: string, nasal: seq<nat>, devoiced: seq<nat>, n: nat): (seq<Piece>, bool)
    requires n <= |kana| && n <= |pattern| && AllDigits(pattern[..n])
  {
    if n == 0 then ([], false)
    else
      assert pattern[..n - 1] == pattern[..n][..n - 1];
      assert pattern[n - 1] == pattern[..n][n - 1];
      var before := Run(kana, pattern, nasal, devoiced, n - 1);
      var acc := DigitOf(pattern[n - 1]);
      (Round(before.0, before.1, acc, kana[n - 1], n in devoiced, n in nasal), FlagAfter(before.1, acc))
  }

  /** All pieces for the morae of kana, with the overline closed at the end if still open. */
  function Pieces(kana: string, pattern: string, nasal: seq<nat>, devoiced: seq<nat>): seq<Piece>
    requires |kana| <= |pattern| && AllDigits(pattern[..|kana|])
  {
    var run := Run(kana, pattern, nasal, devoiced, |kana|);
    run.0 + (if run.1 then [Close] else [])
  }

  /**
    format_entry(e): None when a position code or an accent digit fails to
    convert with int().
  */
  function FormatEntryOf(e: AccentEntry): Option<string>
  {
    var kana := e.katakanaReadingAlt;
    var pattern := AccentPattern(kana, e.accent);
    var nasal := DecodePositions(e.nasalSoundPos);
    var devoiced := DecodePositions(e.devoicedPos);
    if nasal.None? || devoiced.None? || !AllDigits(pattern[..|kana|]) then None
    else Some(Html(Pieces(kana, pattern, nasal.value, devoiced.value)))
  }

  lemma DigitsExtend(s: string, i: nat)
    requires i < |s| && AllDigits(s[..i]) && IsDigit(s[i])
    ensures AllDigits(s[..i + 1])
  {
    assert forall k :: 0 <= k < i ==> s[..i + 1][k] == s[..i][k];
  }

  /** One more round of the loop of format_entry. */
  lemma RunStep(kana: string, pattern: string, nasal: seq<nat>, devoiced: seq<nat>, i: nat)
    requires i < |kana| && i < |pattern| && AllDigits(pattern[..i]) && AllDigits(pattern[..i + 1])
    ensures var before := Run(kana, pattern, nasal, devoiced, i);
      Run(kana, pattern, nasal, devoiced, i + 1)
      == (Round(before.0, before.1, DigitOf(pattern[i]), kana[i], i + 1 in devoiced, i + 1 in nasal),
          FlagAfter(before.1, DigitOf(pattern[i])))
  {
  }

  lemma HtmlSnoc(ps: seq<Piece>, p: Piece)
    ensures Html(ps + [p]) == Html(ps) + PieceHtml(p)
  {
    HtmlAppend(ps, [p]);
    assert Html([p]) == PieceHtml(p) + Html([]);
  }

  /**
    format_entry as the source writes it: one pass over the morae that
    appends markup to the result and toggles the overline flag.
  */
  method FormatEntry(e: AccentEntry) returns (r: Option<string>)
    ensures r == FormatEntryOf(e)
  {
    var kana := e.katakanaReadingAlt;
    var accPattern := AccentPattern(kana, e.accent);
    var nasal := DecodePositions(e.nasalSoundPos);
    if nasal.None? {
      return None;
    }
    var devoiced := DecodePositions(e.devoicedPos);
    if devoiced.None? {
      return None;
    }
    var resultStr := "";
    var overlineFlag := false;
    ghost var pieces: seq<Piece> := [];
    for idx := 0 to |kana|
      invariant AllDigits(accPattern[..idx])
      invariant (pieces, overlineFlag) == Run(kana, accPattern, nasal.value, devoiced.value, idx)
      invariant resultStr == Html(pieces)
    {
      if !IsDigit(accPattern[idx]) {
        assert accPattern[..|kana|][idx] == accPattern[idx];
        return None;
      }
      DigitsExtend(accPattern, idx);
      var acc := DigitOf(accPattern[idx]);
      var dev, nas := (idx + 1) in devoiced.value, (idx + 1) in nasal.value;
      ghost var before := overlineFlag;
      resultStr, overlineFlag := EmitMora(resultStr, overlineFlag, acc, kana[idx], dev, nas, pieces);
      pieces := Round(pieces, before, acc, kana[idx], dev, nas);
      RunStep(kana, accPattern, nasal.value, devoiced.value, idx);
    }
    if overlineFlag {
      HtmlSnoc(pieces, Close);
      resultStr := resultStr + "</span>";
      pieces := pieces + [Close];
    } else {
      assert pieces + [] == pieces;
    }
    return Some(resultStr);
  }

  /** The body of the loop of format_entry for one mora of accent digit acc. */
  method EmitMora(resultStr: string, overlineFlag: bool, acc: nat, c: char, devoiced: bool, nasal: bool,
                  ghost pieces: seq<Piece>)
    returns (out: string, flag: bool)
    requires resultStr == Html(pieces)
    ensures out == Html(Round(pieces, overlineFlag, acc, c, devoiced, nasal))
    ensures flag == FlagAfter(overlineFlag, acc)
  {
    ghost var ps := pieces;
    out, flag := resultStr, overlineFlag;
    if !flag && acc > 0 {
      HtmlSnoc(ps, Open);
      out, ps := out + "<span class=\"overline\">", ps + [Open];
      flag := true;
    }
    if flag && acc == 0 {
      HtmlSnoc(ps, Close);
      out, ps := out + "</span>", ps + [Close];
      flag := false;
    }
    HtmlSnoc(ps, Mora(c, devoiced));
    if devoiced {
      out := out + ("<span class=\"nopron\">" + [c] + "</span>");
    } else {
      out := out + [c];
    }
    ps := ps + [Mora(c, devoiced)];
    if nasal {
      HtmlSnoc(ps, Nasal);
      out, ps := out + "<span class=\"nasal\">&#176;</span>", ps + [Nasal];
    }
    if acc == 2 {
      HtmlSnoc(ps, Downstep);
      out, ps := out + "</span>&#42780;", ps + [Downstep];
      flag := false;
    }
    assert ps == Round(pieces, overlineFlag, acc, c, devoiced, nasal);
  }

  /** After a mora the overline is open exactly when its digit is neither 0 nor 2. */
  lemma FlagAfterDigit(flag: bool, acc: nat)
    ensures FlagAfter(flag, acc) <==> acc != 0 && acc != 2
  {
  }

  // ---------------------------------------------------------------------
  // Properties of the markup, stated on the pieces
  // ---------------------------------------------------------------------

  /** How many overlines are open after ps: each piece moves the count by its delta. */
  function Depth(ps: seq<Piece>): int
    decreases |ps|
  {
    if ps == [] then 0 else Depth(ps[..|ps| - 1]) + Delta(ps[|ps| - 1])
  }

  /** The piece before the end of ps is a mora, or a nasal mark right after a mora. */
  predicate AfterMora(ps: seq<Piece>)
  {
    |ps| > 0 && (ps[|ps| - 1].Mora? || (ps[|ps| - 1] == Nasal && |ps| > 1 && ps[|ps| - 2].Mora?))
  }

  /**
    May p come after ps?  An overline opens only when none is open, it is
    closed (plainly or by a downstep) only when one is open, a nasal mark
    comes right after its mora and a downstep right after the mora and its
    nasal mark.
  */
  predicate Allowed(ps: seq<Piece>, p: Piece)
  {
    match p
    case Open => Depth(ps) == 0
    case Close => Depth(ps) == 1
    case Downstep => Depth(ps) == 1 && AfterMora(ps)
    case Nasal => |ps| > 0 && ps[|ps| - 1].Mora?
    case Mora(_, _) => true
  }

  /** Every piece of ps is allowed after the pieces before it. */
  predicate WellFormed(ps: seq<Piece>)
    decreases |ps|
  {
    ps == [] || (WellFormed(ps[..|ps| - 1]) && Allowed(ps[..|ps| - 1], ps[|ps| - 1]))
  }

  lemma WellFormedSnoc(ps: seq<Piece>, p: Piece)
    ensures WellFormed(ps + [p]) <==> WellFormed(ps) && Allowed(ps, p)
    ensures Depth(ps + [p]) == Depth(ps) + Delta(p)
  {
    assert (ps + [p])[..|ps|] == ps;
  }

  /** One annotated mora of the output; raised says that it lies under an overline. */
  datatype Mark = Mark(c: char, devoiced: bool, nasal: bool, downstep: bool, raised: bool)

  /**
    The morae of ps in order, each with whether it is wrapped as devoiced,
    whether a nasal mark or a downstep follows it, and whether an overline
    is open around it.
  */
  function Marks(ps: seq<Piece>): seq<Mark>
    decreases |ps|
  {
    if ps == [] then [] else MarkStep(Marks(ps[..|ps| - 1]), Depth(ps[..|ps| - 1]), ps[|ps| - 1])
  }

  /**
    A mora starts a new mark, raised when an overline is open before it (depth
    is the number of open overlines); a nasal mark or a downstep annotates the
    latest mark.
  */
  function MarkStep(ms: seq<Mark>, depth: int, p: Piece): seq<Mark>
  {
    match p
    case Mora(c, d) => ms + [Mark(c, d, false, false, depth > 0)]
    case Nasal => if ms == [] then ms else ms[..|ms| - 1] + [ms[|ms| - 1].(nasal := true)]
    case Downstep => if ms == [] then ms else ms[..|ms| - 1] + [ms[|ms| - 1].(downstep := true)]
    case _ => ms
  }

  lemma MarksSnoc(ps: seq<Piece>, p: Piece)
    ensures Marks(ps + [p]) == MarkStep(Marks(ps), Depth(ps), p)
  {
    assert (ps + [p])[..|ps|] == ps;
  }

  /**
    One round adds exactly one mark: the mora, wrapped as devoiced when
    asked, with a nasal mark when asked, a downstep exactly for digit 2, and
    under the overline exactly for a nonzero digit.
  */
  lemma MarksRound(ps: seq<Piece>, flag: bool, acc: nat, c: char, devoiced: bool, nasal: bool)
    requires WellFormed(ps) && Depth(ps) == if flag then 1 else 0
    ensures Marks(Round(ps, flag, acc, c, devoiced, nasal)) == Marks(ps) + [Mark(c, devoiced, nasal, acc == 2, acc != 0)]
  {
    MarksOverline(ps, flag, acc);
    WellFormedOverline(ps, flag, acc);
    MarksEmit(Overline(ps, flag, acc), acc, c, devoiced, nasal);
  }

  lemma MarksOverline(ps: seq<Piece>, flag: bool, acc: nat)
    ensures Marks(Overline(ps, flag, acc)) == Marks(ps)
  {
    MarksSnoc(ps, Open);
    MarksSnoc(AppendIf(ps, !flag && acc > 0, Open), Close);
  }

  lemma MarksEmit(ps: seq<Piece>, acc: nat, c: char, devoiced: bool, nasal: bool)
    ensures Marks(Emit(ps, acc, c, devoiced, nasal)) == Marks(ps) + [Mark(c, devoiced, nasal, acc == 2, Depth(ps) > 0)]
  {
    var withMora := ps + [Mora(c, devoiced)];
    MarksSnoc(ps, Mora(c, devoiced));
    var withNasal := AppendIf(withMora, nasal, Nasal);
    MarksSnoc(withMora, Nasal);
    assert Marks(withNasal) == Marks(ps) + [Mark(c, devoiced, nasal, false, Depth(ps) > 0)];
    MarksSnoc(withNasal, Downstep);
  }

  /** How a piece changes the number of open overlines. */
  function Delta(p: Piece): int
  {
    match p
    case Open => 1
    case Close => -1
    case Downstep => -1
    case _ => 0
  }

  /** Appending an allowed piece keeps ps well formed and moves the depth by the piece's delta. */
  lemma Extend(ps: seq<Piece>, b: bool, p: Piece)
    requires WellFormed(ps) && (b ==> Allowed(ps, p))
    ensures WellFormed(AppendIf(ps, b, p))
    ensures Depth(AppendIf(ps, b, p)) == Depth(ps) + if b then Delta(p) else 0
  {
    if b {
      WellFormedSnoc(ps, p);
    }
  }

  lemma AfterMoraNasal(ps: seq<Piece>, m: Piece, nasal: bool)
    requires m.Mora?
    ensures AfterMora(AppendIf(ps + [m], nasal, Nasal))
  {
    var qs := ps + [m];
    assert qs[|qs| - 1] == m;
    if nasal {
      var rs := qs + [Nasal];
      assert rs[|rs| - 1] == Nasal && rs[|rs| - 2] == m;
    }
  }

  /**
    One round keeps the markup well formed, and the overline is open after
    it exactly when the flag says so.
  */
  lemma WellFormedRound(ps: seq<Piece>, flag: bool, acc: nat, c: char, devoiced: bool, nasal: bool)
    requires WellFormed(ps) && Depth(ps) == if flag then 1 else 0
    ensures WellFormed(Round(ps, flag, acc, c, devoiced, nasal))
    ensures Depth(Round(ps, flag, acc, c, devoiced, nasal)) == if FlagAfter(flag, acc) then 1 else 0
  {
    WellFormedOverline(ps, flag, acc);
    WellFormedEmit(Overline(ps, flag, acc), acc != 0, acc, c, devoiced, nasal);
  }

  /** After the overline step, an overline is open exactly for a nonzero digit. */
  lemma WellFormedOverline(ps: seq<Piece>, flag: bool, acc: nat)
    requires WellFormed(ps) && Depth(ps) == if flag then 1 else 0
    ensures WellFormed(Overline(ps, flag, acc))
    ensures Depth(Overline(ps, flag, acc)) == if acc != 0 then 1 else 0
  {
    Extend(ps, !flag && acc > 0, Open);
    Extend(AppendIf(ps, !flag && acc > 0, Open), (flag || acc > 0) && acc == 0, Close);
  }

  /** The mora step keeps the markup well formed; a downstep closes the open overline. */
  lemma WellFormedEmit(ps: seq<Piece>, raised: bool, acc: nat, c: char, devoiced: bool, nasal: bool)
    requires WellFormed(ps) && Depth(ps) == (if raised then 1 else 0) && (acc == 2 ==> raised)
    ensures WellFormed(Emit(ps, acc, c, devoiced, nasal))
    ensures Depth(Emit(ps, acc, c, devoiced, nasal)) == if raised && acc != 2 then 1 else 0
  {
    var withMora := ps + [Mora(c, devoiced)];
    Extend(ps, true, Mora(c, devoiced));
    assert AppendIf(ps, true, Mora(c, devoiced)) == withMora;
    var withNasal := AppendIf(withMora, nasal, Nasal);
    Extend(withMora, nasal, Nasal);
    AfterMoraNasal(ps, Mora(c, devoiced), nasal);
    Extend(withNasal, acc == 2, Downstep);
  }

  /** The loop over the first n morae keeps the markup well formed, the flag tracking the open overline. */
  lemma {:induction false} RunWellFormed(kana: string, pattern: string, nasal: seq<nat>, devoiced: seq<nat>, n: nat)
    requires n <= |kana| && n <= |pattern| && AllDigits(pattern[..n])
    ensures WellFormed(Run(kana, pattern, nasal, devoiced, n).0)
    ensures Depth(Run(kana, pattern, nasal, devoiced, n).0) == if Run(kana, pattern, nasal, devoiced, n).1 then 1 else 0
  {
    if n > 0 {
      assert pattern[..n - 1] == pattern[..n][..n - 1];
      assert pattern[n - 1] == pattern[..n][n - 1];
      RunWellFormed(kana, pattern, nasal, devoiced, n - 1);
      var before := Run(kana, pattern, nasal, devoiced, n - 1);
      WellFormedRound(before.0, before.1, DigitOf(pattern[n - 1]), kana[n - 1], n in devoiced, n in nasal);
    }
  }

  /** The loop over the first n morae emits one mark per mora, annotated as the positions and digits ask. */
  lemma {:induction false} RunMarks(kana: string, pattern: string, nasal: seq<nat>, devoiced: seq<nat>, n: nat)
    requires n <= |kana| && n <= |pattern| && AllDigits(pattern[..n])
    ensures |Marks(Run(kana, pattern, nasal, devoiced, n).0)| == n
    ensures forall k :: 0 <= k < n ==>
      Marks(Run(kana, pattern, nasal, devoiced, n).0)[k]
        == Mark(kana[k], k + 1 in devoiced, k + 1 in nasal, pattern[k] == '2', pattern[k] != '0')
  {
    if n > 0 {
      assert pattern[..n - 1] == pattern[..n][..n - 1];
      assert pattern[n - 1] == pattern[..n][n - 1];
      RunMarks(kana, pattern, nasal, devoiced, n - 1);
      RunWellFormed(kana, pattern, nasal, devoiced, n - 1);
      var before := Run(kana, pattern, nasal, devoiced, n - 1);
      var acc := DigitOf(pattern[n - 1]);
      MarksRound(before.0, before.1, acc, kana[n - 1], n in devoiced, n in nasal);
      var ms := Marks(before.0);
      var m := Mark(kana[n - 1], n in devoiced, n in nasal, acc == 2, acc != 0);
      assert Marks(Run(kana, pattern, nasal, devoiced, n).0) == ms + [m];
      assert (acc == 2) == (pattern[n - 1] == '2');
      assert (acc != 0) == (pattern[n - 1] != '0');
      forall k | 0 <= k < n
        ensures (ms + [m])[k] == Mark(kana[k], k + 1 in devoiced, k + 1 in nasal, pattern[k] == '2', pattern[k] != '0')
      {
        if k < n - 1 {
          assert (ms + [m])[k] == ms[k];
        }
      }
    }
  }

  /**
    The pieces of format_entry: every overline is closed exactly once (by a
    0 digit, by a 2 digit or at the end), so as many overlines open as
    close; a downstep only ever closes an open overline; and the morae are
    the katakana reading, each once and in order, wrapped as devoiced
    exactly at the devoiced positions, followed by a nasal mark exactly at
    the nasal positions and by a downstep exactly where the digit is 2, and
    under an overline exactly where the digit is not 0.
  */
  lemma PiecesProperties(kana: string, pattern: string, nasal: seq<nat>, devoiced: seq<nat>)
    requires |kana| <= |pattern| && AllDigits(pattern[..|kana|])
    ensures WellFormed(Pieces(kana, pattern, nasal, devoiced))
    ensures Depth(Pieces(kana, pattern, nasal, devoiced)) == 0
    ensures |Marks(Pieces(kana, pattern, nasal, devoiced))| == |kana|
    ensures forall k :: 0 <= k < |kana| ==>
      Marks(Pieces(kana, pattern, nasal, devoiced))[k]
        == Mark(kana[k], k + 1 in devoiced, k + 1 in nasal, pattern[k] == '2', pattern[k] != '0')
  {
    var run := Run(kana, pattern, nasal, devoiced, |kana|);
    RunWellFormed(kana, pattern, nasal, devoiced, |kana|);
    RunMarks(kana, pattern, nasal, devoiced, |kana|);
    WellFormedSnoc(run.0, Close);
    MarksSnoc(run.0, Close);
    if !run.1 {
      assert run.0 + [] == run.0;
    }
  }

  /** The depth counts openings minus closings and downsteps. */
  lemma {:induction false} DepthCounts(ps: seq<Piece>)
    ensures Depth(ps) == multiset(ps)[Open] as int - multiset(ps)[Close] as int - multiset(ps)[Downstep] as int
    decreases |ps|
  {
    if ps != [] {
      var init := ps[..|ps| - 1];
      DepthCounts(init);
      assert ps == init + [ps[|ps| - 1]];
      assert multiset(ps) == multiset(init) + multiset{ps[|ps| - 1]};
    }
  }

  /** At depth 0 as many overlines are opened as are closed, plainly or by a downstep. */
  lemma BalancedCounts(ps: seq<Piece>)
    requires Depth(ps) == 0
    ensures multiset(ps)[Open] == multiset(ps)[Close] + multiset(ps)[Downstep]
  {
    DepthCounts(ps);
  }

  /**
    ハシ with accent 2: the pattern is padded to 02, so ハ stays low, シ is
    raised and the pitch falls after it.
  */
  lemma FormatEntryExampleHashi(e: AccentEntry)
    requires e.katakanaReadingAlt == "ハシ" && e.accent == "2"
    requires e.nasalSoundPos == "" && e.devoicedPos == ""
    ensures FormatEntryOf(e) == Some("ハ" + "<span class=\"overline\">" + "シ" + "</span>&#42780;")
  {
    var kana := e.katakanaReadingAlt;
    var pattern := AccentPattern(kana, e.accent);
    assert pattern == "02";
    ParseEmpty();
    assert DecodePositions(e.nasalSoundPos) == Some([]) && DecodePositions(e.devoicedPos) == Some([]);
    assert AllDigits(pattern[..|kana|]);
    PiecesExampleHashi(kana, pattern);
    HtmlExampleHashi();
  }

  lemma PiecesExampleHashi(kana: string, pattern: string)
    requires kana == "ハシ" && pattern == "02"
    ensures Pieces(kana, pattern, [], []) == [Mora('ハ', false), Open, Mora('シ', false), Downstep]
  {
    assert DigitOf(pattern[0]) == 0 && DigitOf(pattern[1]) == 2;
    assert pattern[..0] == "" && pattern[..1] == "0";
    var r0 := Run(kana, pattern, [], [], 0);
    assert Overline([], false, 0) == [];
    assert Emit([], 0, 'ハ', false, false) == [Mora('ハ', false)];
    var r1 := Run(kana, pattern, [], [], 1);
    assert r1 == ([Mora('ハ', false)], false);
    assert Overline(r1.0, false, 2) == [Mora('ハ', false), Open];
    assert Emit([Mora('ハ', false), Open], 2, 'シ', false, false) == [Mora('ハ', false), Open, Mora('シ', false), Downstep];
    var r2 := Run(kana, pattern, [], [], 2);
    assert r2 == ([Mora('ハ', false), Open, Mora('シ', false), Downstep], false);
    assert r2.0 + [] == r2.0;
  }

  lemma HtmlExampleHashi()
    ensures Html([Mora('ハ', false), Open, Mora('シ', false), Downstep])
         == "ハ" + "<span class=\"overline\">" + "シ" + "</span>&#42780;"
  {
    var p1 := [Mora('ハ', false)];
    var p2 := [Mora('ハ', false), Open];
    var p3 := [Mora('ハ', false), Open, Mora('シ', false)];
    HtmlSnoc([], Mora('ハ', false));
    assert [] + [Mora('ハ', false)] == p1;
    HtmlSnoc(p1, Open);
    assert p1 + [Open] == p2;
    HtmlSnoc(p2, Mora('シ', false));
    assert p2 + [Mora('シ', false)] == p3;
    HtmlSnoc(p3, Downstep);
    assert p3 + [Downstep] == [Mora('ハ', false), Open, Mora('シ', false), Downstep];
    assert Html(p1) == "ハ";
  }
}

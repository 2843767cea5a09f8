/**
  The two regular expressions of helpers/mingle_readings.py, written as
  scanners: tie_inside_furigana with whitespace_split on top of it, and
  strip_non_jp_furigana. Python's re.sub scans from left to right; where a
  match starts it replaces the match and resumes after it, elsewhere it keeps
  one character and moves on. Each scanner below has that shape.
*/
module Brackets {
  import opened Text
  import opened Furigana

  /** The index of the first bracket of s, or |s| when there is none. */
  function FirstBracket(s: string): (k: nat)
    ensures k <= |s| && NoBracket(s[..k])
    ensures k < |s| ==> IsBracket(s[k])
  {
    if s == "" then 0
    else if IsBracket(s[0]) then 0
    else
      var k := FirstBracket(s[1..]);
      assert s[..k + 1] == [s[0]] + s[1..][..k];
      k + 1
  }

  /** s starts with a bracket group "[" content "]" that closes at b, with a non-empty, bracket-free content. */
  predicate GroupAt(s: string, b: int)
  {
    1 < b < |s| && s[0] == '[' && s[b] == ']' && NoBracket(s[1..b])
  }

  /**
    Where a match of \[[^\[\]]+?] that starts at the front of s ends, or 0
    when no match starts there. The lazy repetition cannot pass a ']', so the
    match is the whole group when there is one.
  */
  function GroupEnd(s: string): (j: nat)
    ensures j > 0 ==> GroupAt(s, j)
    ensures forall b :: GroupAt(s, b) ==> j == b
  {
    if s != "" && s[0] == '[' then
      var k := 1 + FirstBracket(s[1..]);
      forall b | GroupAt(s, b)
        ensures k == b
      {
        assert forall i :: 0 <= i < b - 1 ==> s[1..][..b - 1][i] == s[1..b][i];
        assert s[1..][b - 1] == s[b];
      }
      if k < |s| && s[k] == ']' && k > 1 then
        assert s[1..k] == s[1..][..k - 1];
        k
      else 0
    else 0
  }

  /** A phrase as runs of plain text and bracket groups. */
  datatype Segment = Plain(text: string) | Group(content: string)

  predicate WellFormedSegment(g: Segment)
  {
    match g
    case Plain(t) => '[' !in t
    case Group(c) => c != "" && NoBracket(c)
  }

  function Render(segs: seq<Segment>): string
  {
    if segs == [] then ""
    else
      match segs[0]
      case Plain(t) => t + Render(segs[1..])
      case Group(c) => "[" + c + "]" + Render(segs[1..])
  }

  // ---------------------------------------------------------------------------
  // tie_inside_furigana and whitespace_split
  // ---------------------------------------------------------------------------

  /** The text of one matched group with every space turned into the reading separator. */
  function TieSpaces(s: string): (r: string)
    ensures |r| == |s|
    ensures forall i :: 0 <= i < |s| ==> r[i] == if s[i] == ' ' then MultipleReadingSep else s[i]
  {
    if s == "" then ""
    else [if s[0] == ' ' then MultipleReadingSep else s[0]] + TieSpaces(s[1..])
  }

  /** tie_inside_furigana: every space inside a bracket group becomes MULTIPLE_READING_SEP. */
  function Tie(s: string): string
    decreases |s|
  {
    if s == "" then ""
    else
      var j := GroupEnd(s);
      if j > 0 then "[" + TieSpaces(s[1..j]) + "]" + Tie(s[j + 1..])
      else [s[0]] + Tie(s[1..])
  }

  /** Position i of s lies strictly inside a bracket group with a bracket-free content. */
  predicate InGroup(s: string, i: int)
  {
    exists a, b :: 0 <= a < i < b < |s| && s[a] == '[' && s[b] == ']' && NoBracket(s[a + 1..b])
  }

  /**
    The scan of tie_inside_furigana changes exactly the spaces that lie inside
    a group, and nothing else: a pointwise description that does not mention
    the scanning order.
  */
  lemma {:induction false} TiePointwise(s: string)
    ensures |Tie(s)| == |s|
    ensures forall i :: 0 <= i < |s| ==>
      Tie(s)[i] == if s[i] == ' ' && InGroup(s, i) then MultipleReadingSep else s[i]
    decreases |s|
  {
    if s != "" {
      var j := GroupEnd(s);
      var r := Tie(s);
      if j > 0 {
        var t := s[j + 1..];
        TiePointwise(t);
        var mid := TieSpaces(s[1..j]);
        assert r == "[" + mid + "]" + Tie(t);
        forall i | 0 <= i < |s|
          ensures r[i] == if s[i] == ' ' && InGroup(s, i) then MultipleReadingSep else s[i]
        {
          if 0 < i < j {
            assert r[i] == mid[i - 1];
            assert s[1..j][i - 1] == s[i];
            if s[i] == ' ' {
              assert s[0 + 1..j] == s[1..j];
            }
          } else if j < i {
            assert r[i] == Tie(t)[i - j - 1];
            InGroupAfterGroup(s, j, i);
          }
        }
      } else {
        TiePointwise(s[1..]);
        forall i | 0 <= i < |s|
          ensures r[i] == if s[i] == ' ' && InGroup(s, i) then MultipleReadingSep else s[i]
        {
          if i > 0 {
            InGroupAfterPlain(s, i);
          }
        }
      }
    }
  }

  /** Past the end j of a group at the front, being inside a group is a property of s[j + 1..]. */
  lemma InGroupAfterGroup(s: string, j: nat, i: nat)
    requires GroupAt(s, j) && j < i < |s|
    ensures InGroup(s, i) <==> InGroup(s[j + 1..], i - j - 1)
  {
    if InGroup(s, i) {
      InGroupPastGroup(s, j, i);
    }
    if InGroup(s[j + 1..], i - j - 1) {
      InGroupUnshift(s, j + 1, i);
    }
  }

  lemma InGroupPastGroup(s: string, j: nat, i: nat)
    requires GroupAt(s, j) && j < i < |s| && InGroup(s, i)
    ensures InGroup(s[j + 1..], i - j - 1)
  {
    var a, b :| 0 <= a < i < b < |s| && s[a] == '[' && s[b] == ']' && NoBracket(s[a + 1..b]);
    GroupAfterGroup(s, j, a, b);
    InGroupShift(s, j + 1, a, i, b);
  }

  /** A group that contains a position past the group at the front starts past it. */
  lemma GroupAfterGroup(s: string, j: nat, a: nat, b: nat)
    requires GroupAt(s, j) && j < b < |s| && a < b
    requires s[a] == '[' && s[b] == ']' && NoBracket(s[a + 1..b])
    ensures j < a
  {
    assert forall k :: a < k < b ==> s[k] == s[a + 1..b][k - a - 1];
  }

  /** A group wholly inside s[d..] is a group of s[d..], moved by d. */
  lemma InGroupShift(s: string, d: nat, a: nat, i: nat, b: nat)
    requires d <= a < i < b < |s| && s[a] == '[' && s[b] == ']' && NoBracket(s[a + 1..b])
    ensures InGroup(s[d..], i - d)
  {
    var t := s[d..];
    assert t[a - d] == '[' && t[b - d] == ']';
    assert t[a - d + 1..b - d] == s[a + 1..b];
  }

  /** A group of s[d..] is a group of s, moved back by d. */
  lemma InGroupUnshift(s: string, d: nat, i: nat)
    requires d <= i < |s| && InGroup(s[d..], i - d)
    ensures InGroup(s, i)
  {
    var t := s[d..];
    var a, b :| 0 <= a < i - d < b < |t| && t[a] == '[' && t[b] == ']' && NoBracket(t[a + 1..b]);
    assert s[a + d] == '[' && s[b + d] == ']';
    assert s[a + d + 1..b + d] == t[a + 1..b];
  }

  /** When no group starts at the front, being inside a group is a property of s[1..]. */
  lemma InGroupAfterPlain(s: string, i: nat)
    requires 0 < i < |s| && GroupEnd(s) == 0
    ensures InGroup(s, i) <==> InGroup(s[1..], i - 1)
  {
    if InGroup(s, i) {
      var a, b :| 0 <= a < i < b < |s| && s[a] == '[' && s[b] == ']' && NoBracket(s[a + 1..b]);
      assert !GroupAt(s, b);
      InGroupShift(s, 1, a, i, b);
    }
    if InGroup(s[1..], i - 1) {
      InGroupUnshift(s, 1, i);
    }
  }

  /**
    After tying, a character is whitespace exactly when it was whitespace in
    the input and is not a space inside a group: whitespace_split splits only
    outside groups, and on all other whitespace.
  */
  lemma TieWhitespace(s: string)
    ensures |Tie(s)| == |s|
    ensures forall i :: 0 <= i < |s| ==>
      (IsSpace(Tie(s)[i]) <==> IsSpace(s[i]) && !(s[i] == ' ' && InGroup(s, i)))
  {
    TiePointwise(s);
  }

  /** whitespace_split: the tokens of the tied text. */
  function WhitespaceSplit(s: string): (tokens: seq<string>)
    ensures forall i :: 0 <= i < |tokens| ==> tokens[i] != "" && NoSpace(tokens[i])
  {
    SplitWhitespace(Tie(s))
  }

  /** Text without brackets is not changed by tying. */
  lemma TieOfPlain(s: string)
    requires '[' !in s
    ensures Tie(s) == s
  {
    TiePointwise(s);
    forall i | 0 <= i < |s|
      ensures !InGroup(s, i)
    {
      assert forall a :: 0 <= a < |s| ==> s[a] != '[';
    }
  }

  /** Every group with its spaces tied, plain text as it is. */
  function TieGroups(segs: seq<Segment>): (r: seq<Segment>)
    ensures |r| == |segs|
    ensures forall i :: 0 <= i < |segs| ==>
      r[i] == match segs[i] case Plain(t) => Plain(t) case Group(c) => Group(TieSpaces(c))
  {
    if segs == [] then []
    else
      var g := match segs[0] case Plain(t) => Plain(t) case Group(c) => Group(TieSpaces(c));
      [g] + TieGroups(segs[1..])
  }

  /** tie_inside_furigana rewrites the groups of a phrase and leaves its plain text alone. */
  lemma {:induction false} TieRender(segs: seq<Segment>)
    requires forall i :: 0 <= i < |segs| ==> WellFormedSegment(segs[i])
    ensures Tie(Render(segs)) == Render(TieGroups(segs))
    decreases |segs|
  {
    if segs != [] {
      var rest := Render(segs[1..]);
      TieRender(segs[1..]);
      assert TieGroups(segs)[1..] == TieGroups(segs[1..]);
      match segs[0]
      case Plain(t) =>
        TiePlain(t, rest);
      case Group(c) =>
        TieGroup(c, rest);
    }
  }

  lemma {:induction false} TiePlain(t: string, rest: string)
    requires '[' !in t
    ensures Tie(t + rest) == t + Tie(rest)
    decreases |t|
  {
    if t == "" {
      assert t + rest == rest;
    } else {
      var s := t + rest;
      assert s[0] == t[0];
      assert s[1..] == t[1..] + rest;
      TiePlain(t[1..], rest);
    }
  }

  lemma TieGroup(c: string, rest: string)
    requires c != "" && NoBracket(c)
    ensures Tie("[" + c + "]" + rest) == "[" + TieSpaces(c) + "]" + Tie(rest)
  {
    GroupEndOf(c, rest);
  }

  /** Groups without spaces are left as they are by tying. */
  lemma TieUntouched(segs: seq<Segment>)
    requires forall i :: 0 <= i < |segs| ==> WellFormedSegment(segs[i])
    requires forall i :: 0 <= i < |segs| && segs[i].Group? ==> ' ' !in segs[i].content
    ensures TieGroups(segs) == segs
    ensures Tie(Render(segs)) == Render(segs)
  {
    TieRender(segs);
    forall i | 0 <= i < |segs| && segs[i].Group?
      ensures TieSpaces(segs[i].content) == segs[i].content
    {
    }
    assert TieGroups(segs) == segs;
  }

  /**
    whitespace_split of a phrase: when the phrase with the spaces of its
    groups tied reads as an optional leading space plus tokens joined by
    single spaces, those are its tokens. A group holding spaces stays inside
    one token, with its spaces turned into the reading separator.
  */
  lemma WhitespaceSplitPhrase(segs: seq<Segment>, tokens: seq<string>, lead: string)
    requires forall i :: 0 <= i < |segs| ==> WellFormedSegment(segs[i])
    requires forall i :: 0 <= i < |tokens| ==> tokens[i] != "" && NoSpace(tokens[i])
    requires lead == "" || lead == " "
    requires Render(TieGroups(segs)) == lead + Join(tokens, " ")
    ensures WhitespaceSplit(Render(segs)) == tokens
  {
    TieRender(segs);
    SplitWhitespaceOfJoin(tokens);
    if lead == " " {
      var s := lead + Join(tokens, " ");
      assert s[1..] == Join(tokens, " ");
    } else {
      assert lead + Join(tokens, " ") == Join(tokens, " ");
    }
  }

  /** The same, for a phrase whose groups hold no space: the phrase itself reads as the tokens. */
  lemma WhitespaceSplitSpaceless(segs: seq<Segment>, tokens: seq<string>, lead: string)
    requires forall i :: 0 <= i < |segs| ==> WellFormedSegment(segs[i])
    requires forall i :: 0 <= i < |segs| && segs[i].Group? ==> ' ' !in segs[i].content
    requires forall i :: 0 <= i < |tokens| ==> tokens[i] != "" && NoSpace(tokens[i])
    requires lead == "" || lead == " "
    requires Render(segs) == lead + Join(tokens, " ")
    ensures WhitespaceSplit(Render(segs)) == tokens
  {
    TieUntouched(segs);
    WhitespaceSplitPhrase(segs, tokens, lead);
  }

  /**
    whitespace_split of " p h[r1 r2]": two tokens, the second holding the
    group with its space turned into the reading separator.
  */
  lemma WhitespaceSplitSpacedGroup(p: string, h: string, r1: string, r2: string)
    requires p != "" && NoSpace(p) && NoBracket(p)
    requires h != "" && NoSpace(h) && NoBracket(h)
    requires NoSpace(r1) && NoBracket(r1) && NoSpace(r2) && NoBracket(r2)
    ensures WhitespaceSplit(" " + p + " " + h + "[" + r1 + " " + r2 + "]")
         == [p, h + "[" + r1 + [MultipleReadingSep] + r2 + "]"]
  {
    var segs := [Plain(" " + p + " " + h), Group(r1 + " " + r2)];
    var t2 := h + "[" + r1 + [MultipleReadingSep] + r2 + "]";
    SpacedGroupWellFormed(p, h, r1, r2);
    SpacedGroupText(p, h, r1, r2);
    SpacedGroupTiedText(p, h, r1, r2);
    SpacedGroupToken(h, r1, r2);
    WhitespaceSplitPhrase(segs, [p, t2], " ");
  }

  /** The phrase " p h[r1 r2]" as a plain segment and a group. */
  lemma SpacedGroupText(p: string, h: string, r1: string, r2: string)
    ensures Render([Plain(" " + p + " " + h), Group(r1 + " " + r2)])
         == " " + p + " " + h + "[" + r1 + " " + r2 + "]"
  {
    var plain, c := " " + p + " " + h, r1 + " " + r2;
    RenderPlainGroup([Plain(plain), Group(c)], plain, c);
    calc {
      plain + "[" + c + "]";
      plain + "[" + (r1 + " " + r2) + "]";
      { assert plain + "[" + (r1 + " " + r2) == plain + "[" + r1 + " " + r2; }
      plain + "[" + r1 + " " + r2 + "]";
    }
  }

  /** The same phrase with its group tied: an optional space and two tokens. */
  lemma SpacedGroupTiedText(p: string, h: string, r1: string, r2: string)
    requires NoSpace(r1) && NoSpace(r2)
    ensures var segs := [Plain(" " + p + " " + h), Group(r1 + " " + r2)];
      Render(TieGroups(segs)) == " " + Join([p, h + "[" + r1 + [MultipleReadingSep] + r2 + "]"], " ")
  {
    var plain, c := " " + p + " " + h, r1 + " " + r2;
    var tiedC := r1 + [MultipleReadingSep] + r2;
    var segs := [Plain(plain), Group(c)];
    var t2 := h + "[" + tiedC + "]";
    SpacedGroupTied(r1, r2);
    TieGroupsPlainGroup(plain, c);
    RenderPlainGroup([Plain(plain), Group(tiedC)], plain, tiedC);
    JoinTwo(p, t2, " ");
    PlainGroupRegroup(p, h, tiedC);
  }

  lemma TieGroupsPlainGroup(plain: string, c: string)
    ensures TieGroups([Plain(plain), Group(c)]) == [Plain(plain), Group(TieSpaces(c))]
  {
  }

  lemma PlainGroupRegroup(p: string, h: string, c: string)
    ensures " " + p + " " + h + "[" + c + "]" == " " + (p + " " + (h + "[" + c + "]"))
  {
  }

  lemma SpacedGroupWellFormed(p: string, h: string, r1: string, r2: string)
    requires NoSpace(p) && NoBracket(p) && NoBracket(h) && NoBracket(r1) && NoBracket(r2)
    ensures WellFormedSegment(Plain(" " + p + " " + h))
    ensures WellFormedSegment(Group(r1 + " " + r2))
  {
    var plain, c := " " + p + " " + h, r1 + " " + r2;
    assert forall i :: 0 <= i < |plain| ==> plain[i] == ' ' || plain[i] in p || plain[i] in h;
    assert forall i :: 0 <= i < |c| ==> c[i] == ' ' || c[i] in r1 || c[i] in r2;
  }

  /** Tying r1 r2 puts the reading separator in place of its one space. */
  lemma SpacedGroupTied(r1: string, r2: string)
    requires NoSpace(r1) && NoSpace(r2)
    ensures TieSpaces(r1 + " " + r2) == r1 + [MultipleReadingSep] + r2
  {
    var c, t := r1 + " " + r2, r1 + [MultipleReadingSep] + r2;
    forall i | 0 <= i < |c|
      ensures TieSpaces(c)[i] == t[i]
    {
      if i < |r1| {
        assert c[i] == r1[i] && t[i] == r1[i];
      } else if i > |r1| {
        assert c[i] == r2[i - |r1| - 1] && t[i] == r2[i - |r1| - 1];
      }
    }
  }

  lemma SpacedGroupToken(h: string, r1: string, r2: string)
    requires h != "" && NoSpace(h) && NoSpace(r1) && NoSpace(r2)
    ensures var t := h + "[" + r1 + [MultipleReadingSep] + r2 + "]"; t != "" && NoSpace(t)
  {
    var t := h + "[" + r1 + [MultipleReadingSep] + r2 + "]";
    assert forall i :: 0 <= i < |t| ==>
      t[i] in h || t[i] == '[' || t[i] in r1 || t[i] == MultipleReadingSep || t[i] in r2 || t[i] == ']';
  }

  /** whitespace_split(" お 前[まい まえ]") == ["お", "前[まい・まえ]"], spelled from its parts. */
  lemma WhitespaceSplitSpacedExample(p: string, h: string, r1: string, r2: string)
    requires p == "お" && h == "前" && r1 == "まい" && r2 == "まえ"
    ensures WhitespaceSplit(" " + p + " " + h + "[" + r1 + " " + r2 + "]")
         == [p, h + "[" + r1 + "・" + r2 + "]"]
  {
    assert NoSpace(r1) && NoBracket(r1) by {
      assert forall i :: 0 <= i < |r1| ==> r1[i] in "まい";
    }
    assert NoSpace(r2) && NoBracket(r2) by {
      assert forall i :: 0 <= i < |r2| ==> r2[i] in "まえ";
    }
    assert [MultipleReadingSep] == "・";
    WhitespaceSplitSpacedGroup(p, h, r1, r2);
  }

  lemma RenderPlainGroup(segs: seq<Segment>, p: string, c: string)
    requires segs == [Plain(p), Group(c)]
    ensures Render(segs) == p + "[" + c + "]"
  {
    assert segs[1..][1..] == [];
    assert Render(segs[1..]) == "[" + c + "]" + "";
  }

  lemma WhitespaceSplitExample(s: string)
    requires s == " 有[あ]り 得[う]る"
    ensures WhitespaceSplit(s) == ["有[あ]り", "得[う]る"]
  {
    var segs := [Plain(" 有"), Group("あ"), Plain("り 得"), Group("う"), Plain("る")];
    RenderExample(segs);
    RenderExampleWellFormed(segs);
    var a, b := "有[あ]り", "得[う]る";
    ExampleTokens(a, b);
    var tokens := [a, b];
    forall i | 0 <= i < |tokens|
      ensures tokens[i] != "" && NoSpace(tokens[i])
    {
    }
    JoinTwo(a, b, " ");
    WhitespaceSplitSpaceless(segs, tokens, " ");
  }

  lemma ExampleTokens(a: string, b: string)
    requires a == "有[あ]り" && b == "得[う]る"
    ensures a != "" && NoSpace(a) && b != "" && NoSpace(b)
    ensures " " + (a + " " + b) == " 有[あ]り 得[う]る"
  {
    assert forall i :: 0 <= i < |a| ==> !IsSpace(a[i]);
    assert forall i :: 0 <= i < |b| ==> !IsSpace(b[i]);
  }

  lemma RenderExampleWellFormed(segs: seq<Segment>)
    requires segs == [Plain(" 有"), Group("あ"), Plain("り 得"), Group("う"), Plain("る")]
    ensures forall i :: 0 <= i < |segs| ==> WellFormedSegment(segs[i])
    ensures forall i :: 0 <= i < |segs| && segs[i].Group? ==> ' ' !in segs[i].content
  {
    assert NoBracket("あ") && NoBracket("う");
    forall i | 0 <= i < |segs|
      ensures WellFormedSegment(segs[i])
    {
      if i == 2 {
        var p := "り 得";
        assert p[0] != '[' && p[1] != '[' && p[2] != '[';
      }
    }
  }

  lemma RenderExample(segs: seq<Segment>)
    requires segs == [Plain(" 有"), Group("あ"), Plain("り 得"), Group("う"), Plain("る")]
    ensures Render(segs) == " 有[あ]り 得[う]る"
  {
    assert segs[4..][1..] == [];
    assert Render(segs[4..]) == "る";
    assert segs[3..][1..] == segs[4..];
    assert Render(segs[3..]) == "[う]る";
    assert segs[2..][1..] == segs[3..];
    assert Render(segs[2..]) == "り 得[う]る";
    assert segs[1..][1..] == segs[2..];
    assert Render(segs[1..]) == "[あ]り 得[う]る";
  }

  // ---------------------------------------------------------------------------
  // strip_non_jp_furigana
  // ---------------------------------------------------------------------------

  /**
    Bracket groups that hold no kana removed: a group whose content is
    non-empty, bracket-free and kana-free is dropped, everything else is kept.
    This is the evident intent of the regular expression \[[^ぁ-ゖァ-ヺｧ-ﾝ]+],
    whose character class leaves out the brackets themselves (see
    StripNonJpRegex for the expression as written).
  */
  function StripNonJpFurigana(s: string): string
    decreases |s|
  {
    if s == "" then ""
    else
      var j := GroupEnd(s);
      if j > 0 && !HasKana(s[1..j]) then StripNonJpFurigana(s[j + 1..])
      else [s[0]] + StripNonJpFurigana(s[1..])
  }

  /** The segments that are plain text or groups holding kana. */
  function KanaSegments(segs: seq<Segment>): (r: seq<Segment>)
    ensures forall i :: 0 <= i < |r| ==> r[i].Plain? || HasKana(r[i].content)
  {
    if segs == [] then []
    else if segs[0].Group? && !HasKana(segs[0].content) then KanaSegments(segs[1..])
    else [segs[0]] + KanaSegments(segs[1..])
  }

  /**
    strip_non_jp_furigana removes exactly the groups without kana and keeps
    the plain text and the groups with kana, in order.
  */
  lemma {:induction false} StripRender(segs: seq<Segment>)
    requires forall i :: 0 <= i < |segs| ==> WellFormedSegment(segs[i])
    ensures StripNonJpFurigana(Render(segs)) == Render(KanaSegments(segs))
    decreases |segs|
  {
    if segs != [] {
      var rest := Render(segs[1..]);
      StripRender(segs[1..]);
      match segs[0]
      case Plain(t) =>
        StripPlain(t, rest);
      case Group(c) =>
        if HasKana(c) {
          StripKanaGroup(c, rest);
        } else {
          StripKanaFreeGroup(c, rest);
        }
    }
  }

  lemma {:induction false} StripPlain(t: string, rest: string)
    requires '[' !in t
    ensures StripNonJpFurigana(t + rest) == t + StripNonJpFurigana(rest)
    decreases |t|
  {
    if t == "" {
      assert t + rest == rest;
    } else {
      var s := t + rest;
      assert s[0] == t[0];
      assert s[1..] == t[1..] + rest;
      StripPlain(t[1..], rest);
    }
  }

  lemma GroupEndOf(c: string, rest: string)
    requires c != "" && NoBracket(c)
    ensures GroupEnd("[" + c + "]" + rest) == |c| + 1
    ensures ("[" + c + "]" + rest)[1..|c| + 1] == c
    ensures ("[" + c + "]" + rest)[|c| + 2..] == rest
  {
    var s := "[" + c + "]" + rest;
    assert s[1..|c| + 1] == c;
    assert GroupAt(s, |c| + 1);
  }

  lemma GroupTail(c: string, rest: string)
    ensures ("[" + c + "]" + rest)[0] == '['
    ensures ("[" + c + "]" + rest)[1..] == (c + "]") + rest
  {
    var s := "[" + c + "]" + rest;
    assert forall i :: 1 <= i < |s| ==> s[i] == ((c + "]") + rest)[i - 1];
  }

  lemma StripKanaFreeGroup(c: string, rest: string)
    requires c != "" && NoBracket(c) && !HasKana(c)
    ensures StripNonJpFurigana("[" + c + "]" + rest) == StripNonJpFurigana(rest)
  {
    GroupEndOf(c, rest);
  }

  lemma StripKanaGroup(c: string, rest: string)
    requires c != "" && NoBracket(c) && HasKana(c)
    ensures StripNonJpFurigana("[" + c + "]" + rest) == "[" + c + "]" + StripNonJpFurigana(rest)
  {
    var s := "[" + c + "]" + rest;
    calc {
      StripNonJpFurigana(s);
      { GroupEndOf(c, rest); assert HasKana(s[1..GroupEnd(s)]); }
      [s[0]] + StripNonJpFurigana(s[1..]);
      { GroupTail(c, rest); }
      ['['] + StripNonJpFurigana((c + "]") + rest);
      { NoOpenInGroup(c); StripPlain(c + "]", rest); }
      ['['] + ((c + "]") + StripNonJpFurigana(rest));
      "[" + c + "]" + StripNonJpFurigana(rest);
    }
  }

  lemma NoOpenInGroup(c: string)
    requires NoBracket(c)
    ensures '[' !in c + "]"
  {
    assert forall i :: 0 <= i < |c| ==> (c + "]")[i] == c[i];
  }

  /** The example of the source's own self-test. */
  lemma StripExample(s: string)
    requires s == "悪[わる][1223]い[2]"
    ensures StripNonJpFurigana(s) == "悪[わる]い"
  {
    var segs := [Plain("悪"), Group("わる"), Group("1223"), Plain("い"), Group("2")];
    StripExampleRender(segs);
    StripExampleWellFormed(segs);
    StripExampleKept(segs);
    StripRender(segs);
  }

  lemma StripExampleRender(segs: seq<Segment>)
    requires segs == [Plain("悪"), Group("わる"), Group("1223"), Plain("い"), Group("2")]
    ensures Render(segs) == "悪[わる][1223]い[2]"
  {
    assert segs[4..][1..] == [];
    assert Render(segs[4..]) == "[2]";
    assert segs[3..][1..] == segs[4..];
    assert Render(segs[3..]) == "い[2]";
    assert segs[2..][1..] == segs[3..];
    assert Render(segs[2..]) == "[1223]い[2]";
    assert segs[1..][1..] == segs[2..];
    assert Render(segs[1..]) == "[わる][1223]い[2]";
  }

  lemma StripExampleWellFormed(segs: seq<Segment>)
    requires segs == [Plain("悪"), Group("わる"), Group("1223"), Plain("い"), Group("2")]
    ensures forall i :: 0 <= i < |segs| ==> WellFormedSegment(segs[i])
  {
    var w, d := "わる", "1223";
    assert !IsBracket(w[0]) && !IsBracket(w[1]);
    assert !IsBracket(d[0]) && !IsBracket(d[1]) && !IsBracket(d[2]) && !IsBracket(d[3]);
    assert NoBracket(w) && NoBracket(d) && NoBracket("2");
    forall i | 0 <= i < |segs|
      ensures WellFormedSegment(segs[i])
    {
      if i == 0 {
        assert segs[0] == Plain("悪");
      } else if i == 3 {
        assert segs[3] == Plain("い");
      }
    }
  }

  lemma StripExampleKept(segs: seq<Segment>)
    requires segs == [Plain("悪"), Group("わる"), Group("1223"), Plain("い"), Group("2")]
    ensures Render(KanaSegments(segs)) == "悪[わる]い"
  {
    assert HasKana("わる") by { assert IsKana("わる"[0]); }
    assert !HasKana("1223");
    assert !HasKana("2");
    assert segs[4..][1..] == [];
    assert KanaSegments(segs[4..]) == [];
    assert segs[3..][1..] == segs[4..];
    assert KanaSegments(segs[3..]) == [Plain("い")];
    assert segs[2..][1..] == segs[3..];
    assert KanaSegments(segs[2..]) == [Plain("い")];
    assert segs[1..][1..] == segs[2..];
    assert KanaSegments(segs[1..]) == [Group("わる"), Plain("い")];
    var kept := [Plain("悪"), Group("わる"), Plain("い")];
    assert KanaSegments(segs) == kept;
    assert kept[1..][1..][1..] == [];
    assert Render(kept) == "悪[わる]い";
  }

  // ---------------------------------------------------------------------------
  // strip_non_jp_furigana as written
  // ---------------------------------------------------------------------------

  /** The index of the first kana of s, or |s| when there is none. */
  function FirstKana(s: string): (k: nat)
    ensures k <= |s| && !HasKana(s[..k])
    ensures k < |s| ==> IsKana(s[k])
  {
    if s == "" then 0
    else if IsKana(s[0]) then 0
    else
      var k := FirstKana(s[1..]);
      assert s[..k + 1] == [s[0]] + s[1..][..k];
      k + 1
  }

  /**
    Where a match of \[[^ぁ-ゖァ-ヺｧ-ﾝ]+] that starts at the front of s ends,
    or 0 when none starts there. The class admits ']' and '[', so the greedy
    repetition runs up to the first kana and then backs off to the last ']'
    before it.
  */
  function RegexEnd(s: string): (j: nat)
    ensures j > 0 ==> 1 < j < |s| && s[0] == '[' && s[j] == ']' && !HasKana(s[1..j])
    ensures j > 0 ==> j < 1 + FirstKana(s[1..]) && ']' !in s[j + 1..1 + FirstKana(s[1..])]
  {
    if s != "" && s[0] == '[' then
      var e := 1 + FirstKana(s[1..]);
      var j := LastIndexOf(s[..e], ']');
      if j >= 2 then
        RegexEndBounds(s, e, j);
        j
      else 0
    else 0
  }

  lemma RegexEndBounds(s: string, e: nat, j: nat)
    requires |s| >= 1 && e == 1 + FirstKana(s[1..])
    requires 2 <= j && j == LastIndexOf(s[..e], ']')
    ensures j < e <= |s| && s[j] == ']'
    ensures !HasKana(s[1..j])
    ensures ']' !in s[j + 1..e]
  {
    var t := s[1..];
    assert !HasKana(t[..e - 1]);
    assert forall i :: 1 <= i < j ==> s[i] == t[..e - 1][i - 1];
    assert s[j + 1..e] == s[..e][j + 1..];
  }

  /** strip_non_jp_furigana exactly as its regular expression is written. */
  function StripNonJpRegex(s: string): string
    decreases |s|
  {
    if s == "" then ""
    else
      var j := RegexEnd(s);
      if j > 0 then StripNonJpRegex(s[j + 1..])
      else [s[0]] + StripNonJpRegex(s[1..])
  }

  /**
    As written, the class of the expression admits ']' and kanji, so a group
    without kana swallows the text after it up to the last ']' before the next
    kana: "東京[1]大阪[2]" loses "大阪", where the intended result keeps it.
  */
  lemma StripRegexSwallowsKanji()
    ensures StripNonJpRegex("東京[1]大阪[2]") == "東京"
    ensures StripNonJpFurigana("東京[1]大阪[2]") == "東京大阪"
  {
    StripRegexKanjiAsWritten("東京", "[1]大阪[2]");
    StripKanjiIntended([Plain("東京"), Group("1"), Plain("大阪"), Group("2")]);
  }

  lemma StripRegexKanjiAsWritten(a: string, g: string)
    requires a == "東京" && g == "[1]大阪[2]"
    ensures StripNonJpRegex(a + g) == a
  {
    assert StripNonJpRegex(g) == "" by {
      assert !HasKana(g[1..]);
      assert LastIndexOf(g, ']') == 7 by {
        LastIndexOfIs(g, ']', 7);
      }
      RegexEndWithoutKana(g);
      assert g[8..] == "";
    }
    assert StripNonJpRegex(a + g) == a + StripNonJpRegex(g) by {
      RegexPlain(a, g);
    }
  }

  /** Without kana after the '[' the match runs to the last ']' of s. */
  lemma RegexEndWithoutKana(s: string)
    requires |s| >= 1 && s[0] == '[' && !HasKana(s[1..]) && LastIndexOf(s, ']') >= 2
    ensures RegexEnd(s) == LastIndexOf(s, ']')
    ensures StripNonJpRegex(s) == StripNonJpRegex(s[LastIndexOf(s, ']') + 1..])
  {
    var j := LastIndexOf(s, ']');
    FirstKanaNone(s[1..]);
    assert 1 + FirstKana(s[1..]) == |s|;
    assert s[..|s|] == s;
    assert RegexEnd(s) == j;
  }

  lemma {:induction false} FirstKanaNone(s: string)
    requires !HasKana(s)
    ensures FirstKana(s) == |s|
    decreases |s|
  {
    if s != "" {
      assert !IsKana(s[0]);
      assert forall i :: 0 <= i < |s| - 1 ==> s[1..][i] == s[i + 1];
      FirstKanaNone(s[1..]);
    }
  }

  lemma StripKanjiIntended(segs: seq<Segment>)
    requires segs == [Plain("東京"), Group("1"), Plain("大阪"), Group("2")]
    ensures StripNonJpFurigana("東京[1]大阪[2]") == "東京大阪"
  {
    assert segs[3..][1..] == [];
    assert segs[2..][1..] == segs[3..];
    assert segs[1..][1..] == segs[2..];
    assert Render(segs) == "東京[1]大阪[2]" by {
      assert Render(segs[3..]) == "[2]";
      assert Render(segs[2..]) == "大阪[2]";
      assert Render(segs[1..]) == "[1]大阪[2]";
    }
    assert !HasKana("1") && !HasKana("2");
    var kept := [Plain("東京"), Plain("大阪")];
    assert KanaSegments(segs) == kept by {
      assert KanaSegments(segs[3..]) == [];
      assert KanaSegments(segs[2..]) == [Plain("大阪")];
      assert KanaSegments(segs[1..]) == [Plain("大阪")];
    }
    assert Render(kept) == "東京大阪" by {
      assert kept[1..][1..] == [];
    }
    StripRender(segs);
  }

  /** On the source's own example the expression as written gives the intended result. */
  lemma StripRegexExample(s: string)
    requires s == "悪[わる][1223]い[2]"
    ensures StripNonJpRegex(s) == "悪[わる]い"
  {
    var a, s1, b := "悪", "[わる][1223]い[2]", "わる]";
    assert s == a + s1;
    StripRegexExampleSteps(a, s1, b, "[1223]い[2]");
    assert a + "[" + b + "い" == "悪[わる]い";
  }

  lemma StripRegexExampleSteps(a: string, s1: string, b: string, t: string)
    requires a == "悪" && s1 == "[わる][1223]い[2]" && b == "わる]" && t == "[1223]い[2]"
    ensures StripNonJpRegex(a + s1) == a + "[" + b + "い"
  {
    assert StripNonJpRegex(s1) == "[" + StripNonJpRegex(s1[1..]) by {
      RegexKanaAfterOpen(s1);
    }
    assert s1[1..] == b + t;
    assert StripNonJpRegex(b + t) == b + "い" by {
      StripRegexExampleTail(t);
      RegexPlain(b, t);
    }
    assert StripNonJpRegex(a + s1) == a + StripNonJpRegex(s1) by {
      RegexPlain(a, s1);
    }
  }

  /** No match starts at a '[' that a kana follows. */
  lemma RegexKanaAfterOpen(s: string)
    requires |s| >= 2 && IsKana(s[1])
    ensures RegexEnd(s) == 0
    ensures StripNonJpRegex(s) == [s[0]] + StripNonJpRegex(s[1..])
  {
    if s[0] == '[' {
      assert s[1..][0] == s[1];
      assert s[..1] == [s[0]];
    }
  }

  lemma {:induction false} RegexPlain(t: string, rest: string)
    requires '[' !in t
    ensures StripNonJpRegex(t + rest) == t + StripNonJpRegex(rest)
    decreases |t|
  {
    if t == "" {
      assert t + rest == rest;
    } else {
      var s := t + rest;
      assert s[0] == t[0] && s[0] != '[';
      assert s[1..] == t[1..] + rest;
      calc {
        StripNonJpRegex(s);
        { RegexStepPlain(s); }
        [t[0]] + StripNonJpRegex(t[1..] + rest);
        { RegexPlain(t[1..], rest); }
        [t[0]] + (t[1..] + StripNonJpRegex(rest));
        { assert t == [t[0]] + t[1..]; }
        t + StripNonJpRegex(rest);
      }
    }
  }

  lemma StripRegexExampleTail(t: string)
    requires t == "[1223]い[2]"
    ensures StripNonJpRegex(t) == "い"
  {
    var u := t[1..];
    assert IsKana(u[5]);
    assert forall i :: 0 <= i < 5 ==> !IsKana(u[..5][i]);
    FirstKanaIs(u, 5);
    LastIndexOfIs(t[..6], ']', 5);
    assert RegexEnd(t) == 5;
    var w := t[6..];
    assert w[0] == 'い' && w[1..] == t[7..];
    RegexStepPlain(w);
    StripRegexExampleLast(t[7..]);
    assert [w[0]] + "" == "い";
  }

  lemma StripRegexExampleLast(v: string)
    requires v == "[2]"
    ensures StripNonJpRegex(v) == ""
  {
    assert !IsKana(v[1..][0]) && !IsKana(v[1..][1]);
    FirstKanaIs(v[1..], 2);
    LastIndexOfIs(v, ']', 2);
    assert v[..3] == v;
    assert RegexEnd(v) == 2;
    assert v[3..] == "";
  }

  /** The first kana of s is at k. */
  lemma {:induction false} FirstKanaIs(s: string, k: nat)
    requires k <= |s| && (k < |s| ==> IsKana(s[k]))
    requires forall i :: 0 <= i < k ==> !IsKana(s[i])
    ensures FirstKana(s) == k
    decreases k
  {
    if k > 0 {
      FirstKanaIs(s[1..], k - 1);
    }
  }

  /** Where no match starts, re.sub keeps one character and moves on. */
  lemma RegexStepPlain(s: string)
    requires s != "" && s[0] != '['
    ensures StripNonJpRegex(s) == [s[0]] + StripNonJpRegex(s[1..])
  {
  }
}

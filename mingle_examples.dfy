/**
  The self-test of helpers/mingle_readings.py (its main function) restated
  as lemmas about the model: word_reading and mingle_readings on the
  notations it checks.
*/
module MingleExamples {
  import opened Text
  import opened Furigana
  import opened Brackets
  import opened Mingle

  /** " " + h[r]: one token after a leading space. */
  lemma SplitLeadingGroup(w: string, h: string, r: string)
    requires h != "" && NoSpace(h) && NoBracket(h)
    requires r != "" && NoSpace(r) && NoBracket(r)
    requires w == " " + h + "[" + r + "]"
    ensures WhitespaceSplit(w) == [h + "[" + r + "]"]
  {
    var segs := [Plain(" " + h), Group(r)];
    assert segs[1..][1..] == [];
    assert Render(segs[1..]) == "[" + r + "]" + "";
    assert Render(segs) == w;
    var t := h + "[" + r + "]";
    assert NoSpace(t) by {
      assert forall i :: 0 <= i < |t| ==> t[i] in h || t[i] == '[' || t[i] in r || t[i] == ']';
    }
    assert Join([t], " ") == t;
    WhitespaceSplitSpaceless(segs, [t], " ");
  }

  /** p + " " + h[r]: a plain token, then one group. */
  lemma SplitPlainThenGroup(w: string, p: string, h: string, r: string)
    requires p != "" && NoSpace(p) && NoBracket(p)
    requires h != "" && NoSpace(h) && NoBracket(h)
    requires r != "" && NoSpace(r) && NoBracket(r)
    requires w == p + " " + h + "[" + r + "]"
    ensures WhitespaceSplit(w) == [p, h + "[" + r + "]"]
  {
    var segs := [Plain(p + " " + h), Group(r)];
    assert segs[1..][1..] == [];
    assert '[' !in p + " " + h by {
      assert forall i :: 0 <= i < |p + " " + h| ==> (p + " " + h)[i] in p || (p + " " + h)[i] == ' ' || (p + " " + h)[i] in h;
    }
    assert Render(segs[1..]) == "[" + r + "]" + "";
    assert Render(segs) == w;
    var t := h + "[" + r + "]";
    assert NoSpace(t) by {
      assert forall i :: 0 <= i < |t| ==> t[i] in h || t[i] == '[' || t[i] in r || t[i] == ']';
    }
    var tokens := [p, t];
    assert tokens[1..] == [t];
    assert Join(tokens, " ") == p + " " + t;
    WhitespaceSplitSpaceless(segs, tokens, "");
  }

  /** Two notations of one token each make a single column. */
  lemma MingleOneColumn(words: seq<string>, sep: string, t1: string, t2: string)
    requires |words| == 2
    requires WhitespaceSplit(words[0]) == [t1] && WhitespaceSplit(words[1]) == [t2]
    ensures Mingled(words, sep) == Pack([t1, t2], sep)
  {
    SplitAllTwo(words);
    OneColumn(SplitAll(words), sep, t1, t2);
    MingledAligned(words, sep);
  }

  lemma SplitAllTwo(words: seq<string>)
    requires |words| == 2
    ensures SplitAll(words) == [WhitespaceSplit(words[0]), WhitespaceSplit(words[1])]
  {
  }

  lemma OneColumn(split: seq<seq<string>>, sep: string, t1: string, t2: string)
    requires split == [[t1], [t2]]
    ensures Aligned(split) && |split[0]| == 1
    ensures Concat(Packs(split, 1, sep)) == Pack([t1, t2], sep)
  {
    assert Column(split, 0) == [t1, t2];
    assert Packs(split, 0, sep) == [];
    assert Concat([Pack([t1, t2], sep)]) == Pack([t1, t2], sep) + "";
  }

  /** Two notations of two tokens each make two columns. */
  lemma MingleTwoColumns(words: seq<string>, sep: string, a1: string, b1: string, a2: string, b2: string)
    requires |words| == 2
    requires WhitespaceSplit(words[0]) == [a1, b1] && WhitespaceSplit(words[1]) == [a2, b2]
    ensures Mingled(words, sep) == Pack([a1, a2], sep) + Pack([b1, b2], sep)
  {
    SplitAllTwo(words);
    TwoColumns(SplitAll(words), sep, a1, b1, a2, b2);
    MingledAligned(words, sep);
  }

  lemma TwoColumns(split: seq<seq<string>>, sep: string, a1: string, b1: string, a2: string, b2: string)
    requires split == [[a1, b1], [a2, b2]]
    ensures Aligned(split) && |split[0]| == 2
    ensures Concat(Packs(split, 2, sep)) == Pack([a1, a2], sep) + Pack([b1, b2], sep)
  {
    assert Column(split, 0) == [a1, a2];
    assert Column(split, 1) == [b1, b2];
    PacksTwo(split, sep);
    ConcatPair(Pack(Column(split, 0), sep), Pack(Column(split, 1), sep));
  }

  lemma PacksTwo(split: seq<seq<string>>, sep: string)
    requires |split| >= 1 && forall j :: 0 <= j < |split| ==> 2 <= |split[j]|
    ensures Packs(split, 2, sep) == [Pack(Column(split, 0), sep), Pack(Column(split, 1), sep)]
  {
    assert Packs(split, 0, sep) == [];
  }

  lemma ConcatPair(p1: string, p2: string)
    ensures Concat([p1, p2]) == p1 + p2
  {
    assert [p1, p2][1..] == [p2];
    assert Concat([p2]) == p2 + "";
  }

  /** The pack of two decomposed tokens with different readings. */
  function PackOfTwo(d1: SplitFurigana, d2: SplitFurigana, sep: string): string
  {
    Wrap(d1, d1.reading + sep + d2.reading)
  }

  /** A column of two tokens with two different readings lists both, the first first. */
  lemma PackTwoReadings(col: seq<string>, sep: string)
    requires |col| == 2 && Decompose(col[0]).reading != Decompose(col[1]).reading
    ensures Pack(col, sep) == PackOfTwo(Decompose(col[0]), Decompose(col[1]), sep)
  {
    var rs := ColumnReadings(col);
    DedupPair(rs);
    assert rs[1..] == [rs[1]];
    assert Join(rs, sep) == rs[0] + sep + rs[1];
  }

  lemma DedupPair(rs: seq<string>)
    requires |rs| == 2 && rs[0] != rs[1]
    ensures Dedup(rs) == rs
  {
    assert rs[..1][..0] == [];
    assert Dedup(rs[..1]) == [rs[0]];
  }

  /** A column of two tokens with the same reading lists it once. */
  lemma PackSameReading(col: seq<string>, sep: string)
    requires |col| == 2 && Decompose(col[0]).reading == Decompose(col[1]).reading
    ensures Pack(col, sep) == Single(col[0])
  {
    DedupSame(ColumnReadings(col));
  }

  lemma DedupSame(rs: seq<string>)
    requires |rs| == 2 && rs[1] == rs[0]
    ensures Dedup(rs) == [rs[0]]
  {
    DedupConstant(rs);
  }

  /** Two notations of one token each, with different readings. */
  lemma MingleTwoReadings(words: seq<string>, sep: string, t1: string, t2: string, d1: SplitFurigana, d2: SplitFurigana)
    requires |words| == 2
    requires WhitespaceSplit(words[0]) == [t1] && WhitespaceSplit(words[1]) == [t2]
    requires Decompose(t1) == d1 && Decompose(t2) == d2 && d1.reading != d2.reading
    ensures Mingled(words, sep) == PackOfTwo(d1, d2, sep)
  {
    MingleOneColumn(words, sep, t1, t2);
    PackTwoReadings([t1, t2], sep);
  }

  /**
    Two notations of two tokens each, whose first tokens share a reading and
    whose second tokens do not.
  */
  lemma MingleSharedThenTwo(words: seq<string>, sep: string, a1: string, b1: string, a2: string, b2: string,
                            d: SplitFurigana, e1: SplitFurigana, e2: SplitFurigana)
    requires |words| == 2
    requires WhitespaceSplit(words[0]) == [a1, b1] && WhitespaceSplit(words[1]) == [a2, b2]
    requires Decompose(a1) == d && Decompose(a2).reading == d.reading
    requires Decompose(b1) == e1 && Decompose(b2) == e2 && e1.reading != e2.reading
    ensures Mingled(words, sep) == Wrap(d, d.reading) + PackOfTwo(e1, e2, sep)
  {
    MingleTwoColumns(words, sep, a1, b1, a2, b2);
    PackSameReading([a1, a2], sep);
    PackTwoReadings([b1, b2], sep);
  }

  /**
    mingle_readings([" 故郷[こきょう]", " 故郷[ふるさと]"]) == " 故郷[こきょう, ふるさと]",
    with the notations spelled out from their head and readings.
  */
  lemma MingleExampleKokyou(h: string, r1: string, r2: string)
    requires h == "故郷" && r1 == "こきょう" && r2 == "ふるさと"
    ensures Mingled([" " + h + "[" + r1 + "]", " " + h + "[" + r2 + "]"], ", ") == " " + h + "[" + (r1 + ", " + r2) + "]"
  {
    MingleOneGroupTwoReadings([" " + h + "[" + r1 + "]", " " + h + "[" + r2 + "]"], ", ", h, r1, r2);
  }

  /** Two notations " h[r1]" and " h[r2]" mingle to " h[r1, r2]" when the readings differ. */
  lemma MingleOneGroupTwoReadings(words: seq<string>, sep: string, h: string, r1: string, r2: string)
    requires h != "" && NoSpace(h) && NoBracket(h)
    requires r1 != "" && NoSpace(r1) && NoBracket(r1)
    requires r2 != "" && NoSpace(r2) && NoBracket(r2)
    requires r1 != r2 && r1 + sep + r2 != h
    requires |words| == 2 && words[0] == " " + h + "[" + r1 + "]" && words[1] == " " + h + "[" + r2 + "]"
    ensures Mingled(words, sep) == " " + h + "[" + (r1 + sep + r2) + "]"
  {
    var t1, t2 := h + "[" + r1 + "]", h + "[" + r2 + "]";
    LeadingGroupToken(words[0], h, r1);
    LeadingGroupToken(words[1], h, r2);
    MingleTwoReadings(words, sep, t1, t2, SplitFurigana(h, r1, ""), SplitFurigana(h, r2, ""));
    WrapTwo(h, r1, r2, sep);
  }

  /** The one token of " h[r]" and its decomposition. */
  lemma LeadingGroupToken(w: string, h: string, r: string)
    requires h != "" && NoSpace(h) && NoBracket(h)
    requires r != "" && NoSpace(r) && NoBracket(r)
    requires w == " " + h + "[" + r + "]"
    ensures WhitespaceSplit(w) == [h + "[" + r + "]"]
    ensures Decompose(h + "[" + r + "]") == SplitFurigana(h, r, "")
  {
    SplitLeadingGroup(w, h, r);
    DecomposeOne(h + "[" + r + "]", h, r, "");
  }

  /** The tokens of "p h[r]" and the decomposition of the second. */
  lemma PlainThenGroupToken(w: string, p: string, h: string, r: string)
    requires p != "" && NoSpace(p) && NoBracket(p)
    requires h != "" && NoSpace(h) && NoBracket(h)
    requires r != "" && NoSpace(r) && NoBracket(r)
    requires w == p + " " + h + "[" + r + "]"
    ensures WhitespaceSplit(w) == [p, h + "[" + r + "]"]
    ensures Decompose(h + "[" + r + "]") == SplitFurigana(h, r, "")
  {
    SplitPlainThenGroup(w, p, h, r);
    DecomposeOne(h + "[" + r + "]", h, r, "");
  }

  /** The pack of two readings r1 and r2 of one head h. */
  lemma WrapTwo(h: string, r1: string, r2: string, sep: string)
    requires r1 + sep + r2 != h
    ensures PackOfTwo(SplitFurigana(h, r1, ""), SplitFurigana(h, r2, ""), sep) == " " + h + "[" + (r1 + sep + r2) + "]"
  {
    var out := " " + h + "[" + (r1 + sep + r2) + "]";
    assert out + "" == out;
  }

  /**
    mingle_readings(["お 前[まえ]", "お 前[めえ]"]) == "お 前[まえ, めえ]",
    with the notations spelled out from their parts.
  */
  lemma MingleExampleOmae(p: string, h: string, r1: string, r2: string)
    requires p == "お" && h == "前" && r1 == "まえ" && r2 == "めえ"
    ensures Mingled([p + " " + h + "[" + r1 + "]", p + " " + h + "[" + r2 + "]"], ", ")
         == p + (" " + h + "[" + (r1 + ", " + r2) + "]")
  {
    MinglePlainThenTwoReadings([p + " " + h + "[" + r1 + "]", p + " " + h + "[" + r2 + "]"], ", ", p, h, r1, r2);
  }

  /**
    Two notations "p h[r1]" and "p h[r2]" keep the shared plain token once and
    list both readings of the second.
  */
  lemma MinglePlainThenTwoReadings(words: seq<string>, sep: string, p: string, h: string, r1: string, r2: string)
    requires p != "" && NoSpace(p) && NoBracket(p)
    requires h != "" && NoSpace(h) && NoBracket(h)
    requires r1 != "" && NoSpace(r1) && NoBracket(r1)
    requires r2 != "" && NoSpace(r2) && NoBracket(r2)
    requires r1 != r2 && r1 + sep + r2 != h
    requires |words| == 2 && words[0] == p + " " + h + "[" + r1 + "]" && words[1] == p + " " + h + "[" + r2 + "]"
    ensures Mingled(words, sep) == p + (" " + h + "[" + (r1 + sep + r2) + "]")
  {
    var t1, t2 := h + "[" + r1 + "]", h + "[" + r2 + "]";
    PlainThenGroupToken(words[0], p, h, r1);
    PlainThenGroupToken(words[1], p, h, r2);
    DecomposePlainToken(p);
    MingleSharedThenTwo(words, sep, p, t1, p, t2,
      SplitFurigana(p, p, ""), SplitFurigana(h, r1, ""), SplitFurigana(h, r2, ""));
    WrapTwo(h, r1, r2, sep);
  }

  /** mingle_readings([" 言[い]い 分[ぶん]", " 言い分[いーぶん]"]) gives the first notation back. */
  lemma MingleExampleMismatch()
    ensures Mingled([" 言[い]い 分[ぶん]", " 言い分[いーぶん]"], ", ") == " 言[い]い 分[ぶん]"
  {
    MingleMismatchSteps([" 言[い]い 分[ぶん]", " 言い分[いーぶん]"]);
  }

  lemma MingleMismatchSteps(words: seq<string>)
    requires words == [" 言[い]い 分[ぶん]", " 言い分[いーぶん]"]
    ensures Mingled(words, ", ") == words[0]
  {
    TokenCountIibun(words[0], words[1]);
    MingleCountMismatch(words, ", ", 0, 1);
  }

  lemma TokenCountIibun(w0: string, w1: string)
    requires w0 == " 言[い]い 分[ぶん]" && w1 == " 言い分[いーぶん]"
    ensures |WhitespaceSplit(w0)| == 2 && |WhitespaceSplit(w1)| == 1
  {
    TokenCountIibunTwo(w0);
    TokenCountIibunOne(w1);
  }

  lemma TokenCountIibunTwo(w: string)
    requires w == " 言[い]い 分[ぶん]"
    ensures |WhitespaceSplit(w)| == 2
  {
    SplitTwoGroups(w, "言", "い", "い", "分", "ぶん");
  }

  lemma TokenCountIibunOne(w: string)
    requires w == " 言い分[いーぶん]"
    ensures |WhitespaceSplit(w)| == 1
  {
    SplitLeadingGroup(w, "言い分", "いーぶん");
  }

  /** " " + h1[r1]s1 + " " + h2[r2]: two annotated tokens after a leading space. */
  lemma SplitTwoGroups(w: string, h1: string, r1: string, s1: string, h2: string, r2: string)
    requires h1 != "" && NoSpace(h1) && NoBracket(h1)
    requires r1 != "" && NoSpace(r1) && NoBracket(r1)
    requires NoSpace(s1) && NoBracket(s1)
    requires h2 != "" && NoSpace(h2) && NoBracket(h2)
    requires r2 != "" && NoSpace(r2) && NoBracket(r2)
    requires w == " " + h1 + "[" + r1 + "]" + s1 + " " + h2 + "[" + r2 + "]"
    ensures WhitespaceSplit(w) == [h1 + "[" + r1 + "]" + s1, h2 + "[" + r2 + "]"]
  {
    assert w == " " + h1 + "[" + r1 + "]" + s1 + " " + h2 + "[" + r2 + "]" + "";
    SplitTwoAnnotated(w, " ", h1, r1, s1, h2, r2, "");
    assert h2 + "[" + r2 + "]" + "" == h2 + "[" + r2 + "]";
  }

  /**
    lead + h1[r1]s1 + " " + h2[r2]s2, with lead empty or one space: two
    annotated tokens, each head with its reading and the text after it.
  */
  lemma SplitTwoAnnotated(w: string, lead: string, h1: string, r1: string, s1: string,
                          h2: string, r2: string, s2: string)
    requires lead == "" || lead == " "
    requires h1 != "" && NoSpace(h1) && NoBracket(h1)
    requires r1 != "" && NoSpace(r1) && NoBracket(r1)
    requires NoSpace(s1) && NoBracket(s1)
    requires h2 != "" && NoSpace(h2) && NoBracket(h2)
    requires r2 != "" && NoSpace(r2) && NoBracket(r2)
    requires NoSpace(s2) && NoBracket(s2)
    requires w == lead + h1 + "[" + r1 + "]" + s1 + " " + h2 + "[" + r2 + "]" + s2
    ensures WhitespaceSplit(w) == [h1 + "[" + r1 + "]" + s1, h2 + "[" + r2 + "]" + s2]
  {
    var segs := [Plain(lead + h1), Group(r1), Plain(s1 + " " + h2), Group(r2), Plain(s2)];
    var t1, t2 := h1 + "[" + r1 + "]" + s1, h2 + "[" + r2 + "]" + s2;
    TwoAnnotatedRender(segs, lead, h1, r1, s1, h2, r2, s2);
    TwoAnnotatedWellFormed(segs, lead, h1, r1, s1, h2, r2, s2);
    GroupTokenNoSpace(h1, r1, s1);
    GroupTokenNoSpace(h2, r2, s2);
    JoinTwo(t1, t2, " ");
    WhitespaceSplitSpaceless(segs, [t1, t2], lead);
  }

  lemma TwoAnnotatedRender(segs: seq<Segment>, lead: string, h1: string, r1: string, s1: string,
                           h2: string, r2: string, s2: string)
    requires segs == [Plain(lead + h1), Group(r1), Plain(s1 + " " + h2), Group(r2), Plain(s2)]
    ensures Render(segs) == lead + h1 + "[" + r1 + "]" + s1 + " " + h2 + "[" + r2 + "]" + s2
    ensures Render(segs) == lead + ((h1 + "[" + r1 + "]" + s1) + " " + (h2 + "[" + r2 + "]" + s2))
  {
    assert segs[1..][1..][1..][1..][1..] == [];
    var mid := s1 + " " + h2;
    assert Render(segs[4..]) == s2 + "";
    assert Render(segs[3..]) == "[" + r2 + "]" + s2;
    assert Render(segs[2..]) == mid + ("[" + r2 + "]" + s2);
    assert Render(segs[1..]) == "[" + r1 + "]" + (mid + ("[" + r2 + "]" + s2));
  }

  lemma TwoAnnotatedWellFormed(segs: seq<Segment>, lead: string, h1: string, r1: string, s1: string,
                               h2: string, r2: string, s2: string)
    requires lead == "" || lead == " "
    requires NoBracket(h1) && r1 != "" && NoSpace(r1) && NoBracket(r1)
    requires NoBracket(s1) && NoBracket(h2) && r2 != "" && NoSpace(r2) && NoBracket(r2) && NoBracket(s2)
    requires segs == [Plain(lead + h1), Group(r1), Plain(s1 + " " + h2), Group(r2), Plain(s2)]
    ensures forall i :: 0 <= i < |segs| ==> WellFormedSegment(segs[i])
    ensures forall i :: 0 <= i < |segs| && segs[i].Group? ==> ' ' !in segs[i].content
  {
    var mid := s1 + " " + h2;
    assert '[' !in mid by {
      assert forall i :: 0 <= i < |mid| ==> mid[i] in s1 || mid[i] == ' ' || mid[i] in h2;
    }
    assert '[' !in lead + h1 by {
      assert forall i :: 0 <= i < |lead + h1| ==> (lead + h1)[i] == ' ' || (lead + h1)[i] in h1;
    }
    assert '[' !in s2;
  }

  /**
    word_reading of lead + h1[r1]s1 + " " + h2[r2]s2: the word is
    h1 s1 h2 s2 and the reading r1 s1 r2 s2, returned as they are unless
    they coincide.
  */
  lemma WordReadingTwoAnnotated(text: string, lead: string, h1: string, r1: string, s1: string,
                                h2: string, r2: string, s2: string)
    requires lead == "" || lead == " "
    requires h1 != "" && NoSpace(h1) && NoBracket(h1)
    requires r1 != "" && NoSpace(r1) && NoBracket(r1)
    requires NoSpace(s1) && NoBracket(s1)
    requires h2 != "" && NoSpace(h2) && NoBracket(h2)
    requires r2 != "" && NoSpace(r2) && NoBracket(r2)
    requires NoSpace(s2) && NoBracket(s2)
    requires text == lead + h1 + "[" + r1 + "]" + s1 + " " + h2 + "[" + r2 + "]" + s2
    ensures NotationWord(text) == h1 + s1 + h2 + s2
    ensures NotationReading(text) == r1 + s1 + r2 + s2
    ensures h1 + s1 + h2 + s2 != r1 + s1 + r2 + s2 ==>
      WordReadingOf(text) == WordReading(h1 + s1 + h2 + s2, r1 + s1 + r2 + s2)
  {
    NotationTwoAnnotated(text, lead, h1, r1, s1, h2, r2, s2);
    var w, rd := h1 + s1 + h2 + s2, r1 + s1 + r2 + s2;
    assert rd != "" by {
      assert |rd| >= |r1| > 0;
    }
    if w != rd {
      WordReadingComputed(text, w, rd);
    }
  }

  /** The word and the reading that lead + h1[r1]s1 + " " + h2[r2]s2 spells. */
  lemma NotationTwoAnnotated(text: string, lead: string, h1: string, r1: string, s1: string,
                             h2: string, r2: string, s2: string)
    requires lead == "" || lead == " "
    requires h1 != "" && NoSpace(h1) && NoBracket(h1)
    requires r1 != "" && NoSpace(r1) && NoBracket(r1)
    requires NoSpace(s1) && NoBracket(s1)
    requires h2 != "" && NoSpace(h2) && NoBracket(h2)
    requires r2 != "" && NoSpace(r2) && NoBracket(r2)
    requires NoSpace(s2) && NoBracket(s2)
    requires text == lead + h1 + "[" + r1 + "]" + s1 + " " + h2 + "[" + r2 + "]" + s2
    ensures NotationWord(text) == h1 + s1 + h2 + s2
    ensures NotationReading(text) == r1 + s1 + r2 + s2
  {
    var t1, t2 := h1 + "[" + r1 + "]" + s1, h2 + "[" + r2 + "]" + s2;
    SplitTwoAnnotated(text, lead, h1, r1, s1, h2, r2, s2);
    AnnotatedTokenOf(t1, h1, r1, s1);
    AnnotatedTokenOf(t2, h2, r2, s2);
    NotationOfSpelledPair(text, t1, t2, h1 + s1, r1 + s1, h2 + s2, r2 + s2);
    Assoc(h1 + s1, h2, s2);
    Assoc(r1 + s1, r2, s2);
  }

  /** A notation of two tokens, each spelling a known word and reading. */
  lemma NotationOfSpelledPair(text: string, t1: string, t2: string,
                              w1: string, rd1: string, w2: string, rd2: string)
    requires WhitespaceSplit(text) == [t1, t2]
    requires WordOf(t1) == w1 && ReadingOf(t1) == rd1 && WordOf(t2) == w2 && ReadingOf(t2) == rd2
    ensures NotationWord(text) == w1 + w2 && NotationReading(text) == rd1 + rd2
  {
    NotationOfPair(text, t1, t2);
  }

  lemma Assoc(a: string, b: string, c: string)
    ensures a + (b + c) == a + b + c
  {
  }

  /** A notation whose reading is non-empty and differs from its word gives that pair. */
  lemma WordReadingComputed(text: string, w: string, rd: string)
    requires NotationWord(text) == w && NotationReading(text) == rd
    requires rd != "" && w != rd
    ensures WordReadingOf(text) == WordReading(w, rd)
  {
  }

  /** A notation of two tokens spells the words and the readings of both, in order. */
  lemma NotationOfPair(text: string, t1: string, t2: string)
    requires WhitespaceSplit(text) == [t1, t2]
    ensures NotationWord(text) == WordOf(t1) + WordOf(t2)
    ensures NotationReading(text) == ReadingOf(t1) + ReadingOf(t2)
  {
    MapPair(WordOf, t1, t2);
    MapPair(ReadingOf, t1, t2);
    ConcatPair(WordOf(t1), WordOf(t2));
    ConcatPair(ReadingOf(t1), ReadingOf(t2));
  }

  /** The token h[r]s spells the word h s with the reading r s. */
  lemma AnnotatedTokenOf(t: string, h: string, r: string, s: string)
    requires h != "" && NoBracket(h) && NoBracket(r) && NoBracket(s)
    requires t == h + "[" + r + "]" + s
    ensures WordOf(t) == h + s && ReadingOf(t) == r + s
  {
    assert ']' !in h && '[' !in r && ']' !in r && ']' !in s;
    DecomposeOne(t, h, r, s);
  }

  /**
    word_reading("有[あ]り 得[う]る") == WordReading("有り得る", "ありうる"),
    with the notation spelled out from its parts.
  */
  lemma WordReadingExampleAriuru(h1: string, r1: string, s1: string, h2: string, r2: string, s2: string)
    requires h1 == "有" && r1 == "あ" && s1 == "り" && h2 == "得" && r2 == "う" && s2 == "る"
    ensures WordReadingOf(h1 + "[" + r1 + "]" + s1 + " " + h2 + "[" + r2 + "]" + s2)
         == WordReading(h1 + s1 + h2 + s2, r1 + s1 + r2 + s2)
  {
    var text := h1 + "[" + r1 + "]" + s1 + " " + h2 + "[" + r2 + "]" + s2;
    assert text == "" + h1 + "[" + r1 + "]" + s1 + " " + h2 + "[" + r2 + "]" + s2;
    assert (h1 + s1 + h2 + s2)[0] != (r1 + s1 + r2 + s2)[0];
    WordReadingTwoAnnotated(text, "", h1, r1, s1, h2, r2, s2);
  }

  /**
    word_reading of p + " " + h[r], a plain token before an annotated one:
    the word is p h and the reading p r.
  */
  lemma WordReadingPlainThenAnnotated(text: string, p: string, h: string, r: string)
    requires p != "" && NoSpace(p) && NoBracket(p)
    requires h != "" && NoSpace(h) && NoBracket(h)
    requires r != "" && NoSpace(r) && NoBracket(r)
    requires text == p + " " + h + "[" + r + "]"
    ensures NotationWord(text) == p + h && NotationReading(text) == p + r
    ensures h != r ==> WordReadingOf(text) == WordReading(p + h, p + r)
  {
    NotationPlainThenAnnotated(text, p, h, r);
    if h != r {
      assert p + h != p + r by {
        assert (p + h)[|p|..] == h && (p + r)[|p|..] == r;
      }
      assert p + r != "";
      WordReadingComputed(text, p + h, p + r);
    }
  }

  /** The word and the reading that p + " " + h[r] spells. */
  lemma NotationPlainThenAnnotated(text: string, p: string, h: string, r: string)
    requires p != "" && NoSpace(p) && NoBracket(p)
    requires h != "" && NoSpace(h) && NoBracket(h)
    requires r != "" && NoSpace(r) && NoBracket(r)
    requires text == p + " " + h + "[" + r + "]"
    ensures NotationWord(text) == p + h && NotationReading(text) == p + r
  {
    var t := h + "[" + r + "]";
    PlainThenGroupToken(text, p, h, r);
    NotationOfPair(text, p, t);
    DecomposePlainToken(p);
    assert p + "" == p && h + "" == h && r + "" == r;
    assert t == h + "[" + r + "]" + "";
    AnnotatedTokenOf(t, h, r, "");
  }

  /**
    word_reading("お 前[まい<br>まえ<br>めえ]") == WordReading("お前", "おまい<br>まえ<br>めえ"),
    with the notation spelled out from its parts.
  */
  lemma WordReadingExampleOmae(p: string, h: string, r: string)
    requires p == "お" && h == "前" && r == "まい<br>まえ<br>めえ"
    ensures WordReadingOf(p + " " + h + "[" + r + "]") == WordReading(p + h, p + r)
  {
    assert h[0] != r[0];
    assert NoSpace(r) && NoBracket(r) by {
      assert forall i :: 0 <= i < |r| ==> r[i] in "まい<br>えめ";
    }
    WordReadingPlainThenAnnotated(p + " " + h + "[" + r + "]", p, h, r);
  }

  /** h[r]s holds no space when its parts hold none. */
  lemma GroupTokenNoSpace(h: string, r: string, s: string)
    requires NoSpace(h) && NoSpace(r) && NoSpace(s)
    ensures h + "[" + r + "]" + s != "" && NoSpace(h + "[" + r + "]" + s)
  {
    var t := h + "[" + r + "]" + s;
    assert forall i :: 0 <= i < |t| ==> t[i] in h || t[i] == '[' || t[i] in r || t[i] == ']' || t[i] in s;
  }

  /** word_reading("有る") == WordReading("有る", ""). */
  lemma WordReadingExampleAru(text: string)
    requires text == "有る"
    ensures WordReadingOf(text) == WordReading(text, "")
  {
    WordReadingPlain(text);
  }
}

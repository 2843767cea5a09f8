/**
  The furigana micro-syntax of helpers/mingle_readings.py.

  A token is written head[reading]suffix; several bracket groups may follow
  each other ("南[みなみ]千[ち]秋[あき]"), and a phrase is a sequence of such
  tokens separated by spaces. This module models the parser half of the file:
  splitting one group off a token, walking all groups of a token, and
  decomposing a token into aggregate head, reading and suffix. The two
  regular expressions of the file are in module Brackets.
*/
module Furigana {
  import opened Text

  /** The character that stands for a space inside a reading (MULTIPLE_READING_SEP). */
  const MultipleReadingSep: char := '・'

  /** A token taken apart as head[reading]suffix. */
  datatype SplitFurigana = SplitFurigana(head: string, reading: string, suffix: string)

  /**
    One result of find_head_reading_suffix. A token without a usable bracket
    group is NoFurigana and keeps its whole text, which serves as its head and
    as its reading alike.
  */
  datatype Part = NoFurigana(text: string) | Split(split: SplitFurigana)
  {
    function Head(): string
    {
      match this
      case NoFurigana(t) => t
      case Split(sp) => sp.head
    }

    function Reading(): string
    {
      match this
      case NoFurigana(t) => t
      case Split(sp) => sp.reading
    }

    /** The text this part was read from, up to (not including) a group's suffix. */
    function Source(): string
    {
      match this
      case NoFurigana(t) => t
      case Split(sp) => sp.head + "[" + sp.reading + "]"
    }
  }

  /** Hiragana ぁ-ゖ, katakana ァ-ヺ and half-width katakana ｧ-ﾝ. */
  predicate IsKana(c: char)
  {
    ('ぁ' <= c <= 'ゖ') || ('ァ' <= c <= 'ヺ') || ('ｧ' <= c <= 'ﾝ')
  }

  predicate HasKana(s: string)
  {
    exists i :: 0 <= i < |s| && IsKana(s[i])
  }

  predicate IsBracket(c: char)
  {
    c == '[' || c == ']'
  }

  predicate NoBracket(s: string)
  {
    forall i :: 0 <= i < |s| ==> !IsBracket(s[i])
  }

  // ---------------------------------------------------------------------------
  // find_head_reading_suffix
  // ---------------------------------------------------------------------------

  /**
    The group find_head_reading_suffix splits off: the first ']' of the text
    and the last '[' before it, which must not be the first character.
  */
  function HeadReadingSuffix(text: string): (p: Part)
    ensures p.NoFurigana? ==> p.text == text
    ensures p.Split? ==> p.split.head + "[" + p.split.reading + "]" + p.split.suffix == text
    ensures p.Split? ==> p.split.head != "" && ']' !in p.split.head
    ensures p.Split? ==> '[' !in p.split.reading && ']' !in p.split.reading
  {
    var e := IndexOf(text, ']');
    var s := if e < 0 then -1 else LastIndexOf(text[..e], '[');
    if e >= 0 && s > 0 then
      assert text == text[..s] + "[" + text[s + 1..e] + "]" + text[e + 1..];
      assert text[..s] == text[..e][..s];
      assert text[s + 1..e] == text[..e][s + 1..];
      Split(SplitFurigana(text[..s], text[s + 1..e], text[e + 1..]))
    else
      NoFurigana(text)
  }

  /**
    The loop of find_head_reading_suffix: remember the latest '[' and stop at
    the first ']'.
  */
  method FindHeadReadingSuffix(text: string) returns (p: Part)
    ensures p == HeadReadingSuffix(text)
  {
    var furiganaStart, furiganaEnd := -1, -1;
    var i := 0;
    while i < |text|
      invariant 0 <= i <= |text|
      invariant furiganaEnd == -1
      invariant ']' !in text[..i]
      invariant furiganaStart == LastIndexOf(text[..i], '[')
    {
      if text[i] == '[' {
        furiganaStart := i;
      }
      if text[i] == ']' {
        furiganaEnd := i;
        break;
      }
      assert text[..i + 1] == text[..i] + [text[i]];
      LastIndexOfSnoc(text[..i], text[i], '[');
      i := i + 1;
    }
    if furiganaEnd >= 0 {
      IndexOfIs(text, ']', furiganaEnd);
      assert text[..furiganaEnd] == text[..i];
    } else {
      assert text[..i] == text;
    }
    HeadReadingSuffixAt(text, furiganaStart, furiganaEnd);
    if 0 < furiganaStart < furiganaEnd {
      p := Split(SplitFurigana(text[..furiganaStart], text[furiganaStart + 1..furiganaEnd], text[furiganaEnd + 1..]));
    } else {
      p := NoFurigana(text);
    }
  }

  /** HeadReadingSuffix in terms of the two indices the loop finds. */
  lemma HeadReadingSuffixAt(text: string, start: int, end: int)
    requires end == IndexOf(text, ']')
    requires end >= 0 ==> start == LastIndexOf(text[..end], '[')
    ensures HeadReadingSuffix(text) ==
      if 0 < start < end then Split(SplitFurigana(text[..start], text[start + 1..end], text[end + 1..]))
      else NoFurigana(text)
  {
  }

  lemma LastIndexOfSnoc(s: string, c: char, x: char)
    ensures LastIndexOf(s + [c], x) == if c == x then |s| else LastIndexOf(s, x)
  {
    assert (s + [c])[..|s|] == s;
  }

  /**
    The cases in which no group is split off: there is no ']', or no '[',
    or the first ']' comes before the first '[', or the only '[' before the
    first ']' is the first character.
  */
  predicate Malformed(text: string)
  {
    var e := IndexOf(text, ']');
    var o := IndexOf(text, '[');
    || e < 0
    || o < 0
    || e < o
    || (o == 0 && 0 < e && '[' !in text[1..e])
  }

  /** find_head_reading_suffix returns NoFurigana exactly in the malformed cases. */
  lemma NoFuriganaIffMalformed(text: string)
    ensures HeadReadingSuffix(text).NoFurigana? <==> Malformed(text)
  {
    var e := IndexOf(text, ']');
    var o := IndexOf(text, '[');
    if e >= 0 {
      var pre := text[..e];
      var s := LastIndexOf(pre, '[');
      if o >= 0 && o < e {
        assert pre[o] == '[';
        assert o <= s;
        if s == 0 {
          assert text[1..e] == pre[1..];
        } else {
          assert text[1..e][s - 1] == pre[s];
        }
      } else if o >= 0 && e < o {
        assert forall j :: 0 <= j < e ==> pre[j] == text[..o][j];
        assert '[' !in pre;
      }
    }
  }

  lemma {:induction false} IndexOfIs(s: string, c: char, k: nat)
    requires k < |s| && s[k] == c && c !in s[..k]
    ensures IndexOf(s, c) == k
    decreases k
  {
    if k > 0 {
      assert s[0] == s[..k][0];
      assert s[1..][..k - 1] == s[1..k];
      assert forall j :: 0 <= j < k - 1 ==> s[1..k][j] == s[..k][j + 1];
      IndexOfIs(s[1..], c, k - 1);
    }
  }

  lemma {:induction false} LastIndexOfIs(s: string, c: char, k: nat)
    requires k < |s| && s[k] == c && c !in s[k + 1..]
    ensures LastIndexOf(s, c) == k
    decreases |s| - k
  {
    if k < |s| - 1 {
      var init := s[..|s| - 1];
      assert s[k + 1..] == init[k + 1..] + [s[|s| - 1]];
      LastIndexOfIs(init, c, k);
    }
  }

  /**
    Splitting head[reading]suffix gives the three parts back, for a non-empty
    head without ']' and a reading without brackets.
  */
  lemma ParseAnnotated(h: string, r: string, s: string)
    requires h != "" && ']' !in h
    requires '[' !in r && ']' !in r
    ensures HeadReadingSuffix(h + "[" + r + "]" + s) == Split(SplitFurigana(h, r, s))
  {
    var text := h + "[" + r + "]" + s;
    var e := |h| + 1 + |r|;
    var pre := h + "[" + r;
    assert text[..e] == pre;
    assert text[e] == ']';
    IndexOfIs(text, ']', e);
    assert pre[|h|] == '[';
    assert pre[|h| + 1..] == r;
    LastIndexOfIs(pre, '[', |h|);
    assert text[..|h|] == h;
    assert text[|h| + 1..e] == r;
    assert text[e + 1..] == s;
  }

  // ---------------------------------------------------------------------------
  // iter_split_parts and decompose_word
  // ---------------------------------------------------------------------------

  function Sources(parts: seq<Part>): string
  {
    if parts == [] then "" else parts[0].Source() + Sources(parts[1..])
  }

  /**
    The parts iter_split_parts yields: split groups off the front while the
    remaining text is non-empty, and stop after the first NoFurigana.
  */
  function SplitParts(text: string): (parts: seq<Part>)
    ensures parts == [] <==> text == ""
    ensures forall i :: 0 <= i < |parts| - 1 ==> parts[i].Split?
    ensures Sources(parts) == text
    decreases |text|
  {
    if text == "" then []
    else
      match HeadReadingSuffix(text)
      case NoFurigana(t) =>
        assert Sources([NoFurigana(t)]) == t;
        [NoFurigana(t)]
      case Split(sp) =>
        var rest := SplitParts(sp.suffix);
        var parts := [Split(sp)] + rest;
        assert parts[1..] == rest;
        parts
  }

  /** The generator loop of iter_split_parts, collected into a sequence. */
  method IterSplitParts(text: string) returns (parts: seq<Part>)
    ensures parts == SplitParts(text)
  {
    var rest := text;
    parts := [];
    while rest != ""
      invariant parts + SplitParts(rest) == SplitParts(text)
      decreases |rest|
    {
      var part := FindHeadReadingSuffix(rest);
      SplitPartsStep(rest);
      parts := parts + [part];
      if part.NoFurigana? {
        return;
      }
      rest := part.split.suffix;
    }
    assert parts + [] == parts;
  }

  lemma SplitPartsStep(text: string)
    requires text != ""
    ensures HeadReadingSuffix(text).NoFurigana? ==> SplitParts(text) == [HeadReadingSuffix(text)]
    ensures HeadReadingSuffix(text).Split? ==>
      |HeadReadingSuffix(text).split.suffix| < |text| &&
      SplitParts(text) == [HeadReadingSuffix(text)] + SplitParts(HeadReadingSuffix(text).split.suffix)
  {
  }

  /**
    The three buffers of decompose_word after the parts have been written in
    order: a NoFurigana after the first part goes to the suffix, any other
    part adds its head and its reading.
  */
  function Gather(parts: seq<Part>): SplitFurigana
    decreases |parts|
  {
    if parts == [] then SplitFurigana("", "", "")
    else
      var acc := Gather(parts[..|parts| - 1]);
      var p := parts[|parts| - 1];
      if p.NoFurigana? && |parts| > 1 then SplitFurigana(acc.head, acc.reading, acc.suffix + p.text)
      else SplitFurigana(acc.head + p.Head(), acc.reading + p.Reading(), acc.suffix)
  }

  /** decompose_word: the aggregate head, reading and suffix of one token. */
  function Decompose(text: string): SplitFurigana
  {
    Gather(SplitParts(text))
  }

  /** decompose_word: take the parts of the token, then write them into three buffers. */
  method DecomposeWord(text: string) returns (r: SplitFurigana)
    ensures r == Decompose(text)
  {
    var parts := IterSplitParts(text);
    r := GatherParts(parts);
  }

  /** The loop of decompose_word over the parts. */
  method GatherParts(parts: seq<Part>) returns (r: SplitFurigana)
    ensures r == Gather(parts)
  {
    var head, reading, suffix := "", "", "";
    var num := 0;
    while num < |parts|
      invariant 0 <= num <= |parts|
      invariant SplitFurigana(head, reading, suffix) == Gather(parts[..num])
    {
      var part := parts[num];
      assert parts[..num + 1][..num] == parts[..num];
      if part.NoFurigana? && num > 0 {
        suffix := suffix + part.text;
      } else {
        head := head + part.Head();
        reading := reading + part.Reading();
      }
      num := num + 1;
    }
    assert parts[..|parts|] == parts;
    r := SplitFurigana(head, reading, suffix);
  }

  /** A head with its reading, as in 南[みなみ]. */
  datatype Annotation = Annotation(head: string, reading: string)

  /** The notation for a run of annotated heads followed by a plain tail. */
  function Annotated(groups: seq<Annotation>, tail: string): string
  {
    if groups == [] then tail
    else groups[0].head + "[" + groups[0].reading + "]" + Annotated(groups[1..], tail)
  }

  function Heads(groups: seq<Annotation>): string
  {
    if groups == [] then "" else groups[0].head + Heads(groups[1..])
  }

  function Readings(groups: seq<Annotation>): string
  {
    if groups == [] then "" else groups[0].reading + Readings(groups[1..])
  }

  predicate WellFormedAnnotation(g: Annotation)
  {
    g.head != "" && ']' !in g.head && '[' !in g.reading && ']' !in g.reading
  }

  /** Writing one more split part in front just prefixes its head and reading. */
  lemma {:induction false} GatherCons(p: SplitFurigana, ps: seq<Part>)
    requires ps == [] || ps[0].Split?
    ensures Gather([Split(p)] + ps)
         == SplitFurigana(p.head + Gather(ps).head, p.reading + Gather(ps).reading, Gather(ps).suffix)
    decreases |ps|
  {
    var q := [Split(p)] + ps;
    if ps == [] {
      assert q[..0] == [];
    } else {
      var init := ps[..|ps| - 1];
      assert q[..|q| - 1] == [Split(p)] + init;
      assert init == [] || init[0] == ps[0];
      GatherCons(p, init);
      assert q[|q| - 1] == ps[|ps| - 1];
    }
  }

  lemma NoCloseIsNoFurigana(tail: string)
    requires ']' !in tail
    ensures HeadReadingSuffix(tail) == NoFurigana(tail)
  {
  }

  /** A split part followed by a plain tail: the tail becomes the suffix. */
  lemma GatherSplitTail(sp: SplitFurigana, tail: string)
    ensures Gather([Split(sp), NoFurigana(tail)]) == SplitFurigana(sp.head, sp.reading, tail)
  {
    var one := [Split(sp)];
    assert one[..0] == [];
    assert Gather(one) == SplitFurigana("" + sp.head, "" + sp.reading, "");
    assert "" + sp.head == sp.head && "" + sp.reading == sp.reading && "" + tail == tail;
    var q := [Split(sp), NoFurigana(tail)];
    assert q[..1] == one;
  }

  /**
    decompose_word on a run of well-formed groups followed by a tail without
    ']' concatenates the heads and the readings, and the tail becomes the
    suffix.
  */
  lemma {:induction false} DecomposeAnnotated(groups: seq<Annotation>, tail: string)
    requires |groups| >= 1
    requires forall i :: 0 <= i < |groups| ==> WellFormedAnnotation(groups[i])
    requires ']' !in tail
    ensures Decompose(Annotated(groups, tail)) == SplitFurigana(Heads(groups), Readings(groups), tail)
    decreases |groups|
  {
    var g := groups[0];
    var rest := Annotated(groups[1..], tail);
    var sp := SplitFurigana(g.head, g.reading, rest);
    SplitPartsAnnotated(groups, tail);
    var ps := SplitParts(rest);
    if |groups| == 1 {
      DecomposeOneGroup(g, tail);
    } else {
      var more := groups[1..];
      calc {
        Decompose(Annotated(groups, tail));
        Gather([Split(sp)] + ps);
        { SplitPartsAnnotated(more, tail); GatherCons(sp, ps); }
        SplitFurigana(g.head + Gather(ps).head, g.reading + Gather(ps).reading, Gather(ps).suffix);
        { DecomposeAnnotated(more, tail); }
        SplitFurigana(g.head + Heads(more), g.reading + Readings(more), tail);
        SplitFurigana(Heads(groups), Readings(groups), tail);
      }
    }
  }

  /** The parts of an annotated run start with its first group. */
  lemma SplitPartsAnnotated(groups: seq<Annotation>, tail: string)
    requires |groups| >= 1 && WellFormedAnnotation(groups[0])
    ensures SplitParts(Annotated(groups, tail))
         == [Split(SplitFurigana(groups[0].head, groups[0].reading, Annotated(groups[1..], tail)))]
          + SplitParts(Annotated(groups[1..], tail))
  {
    var g := groups[0];
    var text := Annotated(groups, tail);
    assert text == g.head + "[" + g.reading + "]" + Annotated(groups[1..], tail);
    ParseAnnotated(g.head, g.reading, Annotated(groups[1..], tail));
    SplitPartsStep(text);
  }

  lemma DecomposeOneGroup(g: Annotation, tail: string)
    requires WellFormedAnnotation(g) && ']' !in tail
    ensures Decompose(Annotated([g], tail)) == SplitFurigana(Heads([g]), Readings([g]), tail)
  {
    SplitPartsAnnotated([g], tail);
    assert [g][1..] == [];
    assert Annotated([g][1..], tail) == tail;
    var sp := SplitFurigana(g.head, g.reading, tail);
    assert Heads([g][1..]) == "" && Readings([g][1..]) == "";
    assert Heads([g]) == g.head + "" && Readings([g]) == g.reading + "";
    GatherOneGroup(sp, SplitParts(tail));
  }

  lemma GatherOneGroup(sp: SplitFurigana, ps: seq<Part>)
    requires ']' !in sp.suffix && ps == SplitParts(sp.suffix)
    ensures Gather([Split(sp)] + ps) == SplitFurigana(sp.head + "", sp.reading + "", sp.suffix)
  {
    if sp.suffix == "" {
      assert ps == [];
      GatherCons(sp, []);
      assert Gather([]) == SplitFurigana("", "", "");
    } else {
      NoCloseIsNoFurigana(sp.suffix);
      SplitPartsStep(sp.suffix);
      assert ps == [NoFurigana(sp.suffix)];
      calc {
        Gather([Split(sp)] + ps);
        Gather([Split(sp), NoFurigana(sp.suffix)]);
        { GatherSplitTail(sp, sp.suffix); }
        SplitFurigana(sp.head, sp.reading, sp.suffix);
        { assert sp.head + "" == sp.head && sp.reading + "" == sp.reading; }
        SplitFurigana(sp.head + "", sp.reading + "", sp.suffix);
      }
    }
  }

  /** A token in which no group can be split off decomposes to itself as head and reading. */
  lemma DecomposeMalformed(text: string)
    requires text != "" && Malformed(text)
    ensures Decompose(text) == SplitFurigana(text, text, "")
  {
    NoFuriganaIffMalformed(text);
    SplitPartsStep(text);
    var q := [NoFurigana(text)];
    assert q[..0] == [];
    assert Gather(q) == SplitFurigana("" + text, "" + text, "");
    assert "" + text == text;
  }

  /** A single group h[r] with a tail: the head, the reading and the tail as suffix. */
  lemma DecomposeOne(text: string, h: string, r: string, tail: string)
    requires WellFormedAnnotation(Annotation(h, r)) && ']' !in tail
    requires text == h + "[" + r + "]" + tail
    ensures Decompose(text) == SplitFurigana(h, r, tail)
  {
    var gs := [Annotation(h, r)];
    assert gs[1..] == [];
    assert Annotated(gs, tail) == h + "[" + r + "]" + tail;
    assert Heads(gs) == h + "" && Readings(gs) == r + "";
    DecomposeAnnotated(gs, tail);
  }

  lemma DecomposeExampleKarai()
    ensures Decompose("辛[から]い") == SplitFurigana("辛", "から", "い")
  {
    DecomposeOne("辛[から]い", "辛", "から", "い");
  }

  lemma DecomposeExampleKokyou()
    ensures Decompose("故郷[こきょう]") == SplitFurigana("故郷", "こきょう", "")
  {
    DecomposeOne("故郷[こきょう]", "故郷", "こきょう", "");
  }

  lemma DecomposeExampleAri()
    ensures Decompose("有[あ]り") == SplitFurigana("有", "あ", "り")
  {
    DecomposeOne("有[あ]り", "有", "あ", "り");
  }

  lemma DecomposeExampleHiragana()
    ensures Decompose("ひらがな") == SplitFurigana("ひらがな", "ひらがな", "")
  {
    assert IndexOf("ひらがな", ']') < 0;
    DecomposeMalformed("ひらがな");
  }

  lemma DecomposeExampleMinami()
    ensures Decompose("南[みなみ]千[ち]秋[あき]") == SplitFurigana("南千秋", "みなみちあき", "")
  {
    var gs := [Annotation("南", "みなみ"), Annotation("千", "ち"), Annotation("秋", "あき")];
    assert gs[1..][1..][1..] == [];
    assert Annotated(gs, "") == "南[みなみ]千[ち]秋[あき]";
    assert Heads(gs) == "南千秋";
    assert Readings(gs) == "みなみちあき";
    DecomposeAnnotated(gs, "");
  }
}

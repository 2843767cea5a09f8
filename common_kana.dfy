/**
  adjust_reading from helpers/common_kana.py: carry the inflected ending of a
  word over to the reading of its dictionary form.  The katakana normaliser the
  source imports is a parameter, applied to whole strings and to one-character
  strings alike; nothing is assumed about it.
*/
module CommonKana {
  import opened Text

  type Normaliser = string -> string

  /** Python's s[i] for any int i: negative indices count from the end; None is an IndexError. */
  function PyIndex(s: string, i: int): Option<char>
  {
    if 0 <= i < |s| then Some(s[i])
    else if -|s| <= i < 0 then Some(s[|s| + i])
    else None
  }

  /** The position a Python slice bound k denotes in a string of length n. */
  function SliceBound(n: nat, k: int): (b: nat)
    ensures b <= n
  {
    if k < 0 then (if n + k < 0 then 0 else n + k)
    else if k > n then n
    else k
  }

  /** Python's s[:k]. */
  function PySliceTo(s: string, k: int): string
  {
    s[..SliceBound(|s|, k)]
  }

  /** Python's s[k:]. */
  function PySliceFrom(s: string, k: int): string
  {
    s[SliceBound(|s|, k)..]
  }

  /**
    The loop test after n rounds, when both cursors have moved back n places:
    None when one of the two indexings raises, otherwise whether the
    characters before the cursors agree under the normaliser.
  */
  function Test(norm: Normaliser, headword: string, reading: string, n: nat): Option<bool>
  {
    var a, b := PyIndex(headword, |headword| - n - 1), PyIndex(reading, |reading| - n - 1);
    if a.None? || b.None? then None else Some(norm([a.value]) == norm([b.value]))
  }

  /**
    The loop of adjust_reading, entered after n rounds: the number of rounds
    after which it stops, or None when it runs off the front of either string.
  */
  function Rounds(norm: Normaliser, headword: string, reading: string, n: nat): Option<nat>
    requires n <= 2 * |headword|
    decreases 2 * |headword| - n
  {
    match Test(norm, headword, reading, n)
    case None => None
    case Some(same) =>
      if same then Rounds(norm, headword, reading, n + 1) else Some(n)
  }

  /** adjust_reading(raw_word, headword, headword_reading), None when it raises IndexError. */
  function Adjust(norm: Normaliser, raw: string, headword: string, reading: string): Option<string>
  {
    if norm(headword) == norm(reading) then Some(raw)
    else if norm(headword) == norm(raw) then Some(reading)
    else match Rounds(norm, headword, reading, 0)
      case None => None
      case Some(m) => Some(PySliceTo(reading, |reading| - m) + PySliceFrom(raw, |headword| - m))
  }

  /**
    adjust_reading as the source writes it: two guards, then a loop moving the
    two cursors back in lockstep, then two slices.
  */
  method AdjustReading(norm: Normaliser, raw: string, headword: string, reading: string) returns (r: Option<string>)
    ensures r == Adjust(norm, raw, headword, reading)
  {
    if norm(headword) == norm(reading) {
      return Some(raw);
    }
    if norm(headword) == norm(raw) {
      return Some(reading);
    }
    var i, j := |headword|, |reading|;
    ghost var n: nat := 0;
    while true
      invariant n <= 2 * |headword|
      invariant i == |headword| - n && j == |reading| - n
      invariant Rounds(norm, headword, reading, n) == Rounds(norm, headword, reading, 0)
      decreases 2 * |headword| - n
    {
      var a, b := PyIndex(headword, i - 1), PyIndex(reading, j - 1);
      if a.None? || b.None? {
        return None;
      }
      if norm([a.value]) != norm([b.value]) {
        break;
      }
      i, j := i - 1, j - 1;
      n := n + 1;
    }
    return Some(PySliceTo(reading, j) + PySliceFrom(raw, i));
  }

  /** The first m loop tests all find agreeing characters. */
  predicate AllMatch(norm: Normaliser, headword: string, reading: string, n: nat, m: nat)
  {
    forall k :: n <= k < m ==> Test(norm, headword, reading, k) == Some(true)
  }

  /**
    Entered after n rounds, the loop stops after m rounds exactly when every
    test in between finds agreeing characters and the m-th finds a mismatch.
  */
  lemma {:induction false} RoundsStop(norm: Normaliser, headword: string, reading: string, n: nat, m: nat)
    requires n <= 2 * |headword|
    ensures Rounds(norm, headword, reading, n) == Some(m) <==>
      n <= m && AllMatch(norm, headword, reading, n, m) && Test(norm, headword, reading, m) == Some(false)
    decreases 2 * |headword| - n
  {
    var t := Test(norm, headword, reading, n);
    if t == Some(true) {
      RoundsStop(norm, headword, reading, n + 1, m);
      if n <= m && AllMatch(norm, headword, reading, n, m) && Test(norm, headword, reading, m) == Some(false) {
        assert n < m;
      }
    }
  }

  /** Whether the n-th characters from the end of headword and reading agree under the normaliser. */
  predicate TailMatch(norm: Normaliser, headword: string, reading: string, n: nat)
    requires n < |headword| && n < |reading|
  {
    norm([headword[|headword| - 1 - n]]) == norm([reading[|reading| - 1 - n]])
  }

  /**
    When neither guard applies and the last n characters agree but the one
    before them does not, adjust_reading keeps the reading without its last n
    characters and appends the raw word from the headword's cursor on.
  */
  lemma AdjustStrips(norm: Normaliser, raw: string, headword: string, reading: string, n: nat)
    requires norm(headword) != norm(reading) && norm(headword) != norm(raw)
    requires n < |headword| && n < |reading|
    requires forall k :: 0 <= k < n ==> TailMatch(norm, headword, reading, k)
    requires !TailMatch(norm, headword, reading, n)
    ensures Adjust(norm, raw, headword, reading) == Some(reading[..|reading| - n] + raw[SliceBound(|raw|, |headword| - n)..])
  {
    forall k | 0 <= k < n
      ensures Test(norm, headword, reading, k) == Some(true)
    {
      assert TailMatch(norm, headword, reading, k);
    }
    RoundsStop(norm, headword, reading, 0, n);
  }

  /**
    When neither guard applies and the last characters already differ, the
    loop does not run: the whole reading is kept and the raw word contributes
    what follows the headword's length.
  */
  lemma AdjustZeroSteps(norm: Normaliser, raw: string, headword: string, reading: string)
    requires norm(headword) != norm(reading) && norm(headword) != norm(raw)
    requires |headword| > 0 && |reading| > 0
    requires norm([headword[|headword| - 1]]) != norm([reading[|reading| - 1]])
    ensures Adjust(norm, raw, headword, reading) == Some(reading + raw[SliceBound(|raw|, |headword|)..])
  {
    AdjustStrips(norm, raw, headword, reading, 0);
    assert reading[..|reading| - 0] == reading;
  }

  /**
    Whatever path it takes, adjust_reading returns a prefix of the reading
    followed by a suffix of the raw word: no normalised text reaches the output.
  */
  lemma AdjustSplices(norm: Normaliser, raw: string, headword: string, reading: string)
    requires Adjust(norm, raw, headword, reading).Some?
    ensures exists p: nat, q: nat ::
      p <= |reading| && q <= |raw| && Adjust(norm, raw, headword, reading).value == reading[..p] + raw[q..]
  {
    var out := Adjust(norm, raw, headword, reading).value;
    if norm(headword) == norm(reading) {
      assert out == reading[..0] + raw[0..];
    } else if norm(headword) == norm(raw) {
      assert out == reading[..|reading|] + raw[|raw|..];
    } else {
      var m := Rounds(norm, headword, reading, 0).value;
      assert out == reading[..SliceBound(|reading|, |reading| - m)] + raw[SliceBound(|raw|, |headword| - m)..];
    }
  }

  /** An empty headword that neither guard accepts makes the loop's first indexing raise. */
  lemma AdjustEmptyHeadword(norm: Normaliser, raw: string, reading: string)
    requires norm("") != norm(reading) && norm("") != norm(raw)
    ensures Adjust(norm, raw, "", reading) == None
  {
    assert Test(norm, "", reading, 0) == None;
  }

  /** When headword and reading normalise alike, the raw word comes back unchanged. */
  lemma AdjustSameReading(norm: Normaliser, raw: string, headword: string, reading: string)
    requires norm(headword) == norm(reading)
    ensures Adjust(norm, raw, headword, reading) == Some(raw)
  {
  }

  /** When only the raw word normalises like the headword, the reading comes back verbatim. */
  lemma AdjustRawIsHeadword(norm: Normaliser, raw: string, headword: string, reading: string)
    requires norm(headword) != norm(reading) && norm(headword) == norm(raw)
    ensures Adjust(norm, raw, headword, reading) == Some(reading)
  {
  }

  /**
    A sample normaliser for the examples below: hiragana ぁ..ゖ become the
    katakana 0x60 code points above them and everything else is kept.
  */
  function SampleKatakana(s: string): (k: string)
    ensures |k| == |s|
  {
    if s == [] then []
    else
      var c := s[0];
      [if 'ぁ' <= c <= 'ゖ' then (c as int + 0x60) as char else c] + SampleKatakana(s[1..])
  }

  /** adjust_reading('たべた', 'たべる', 'たべる') returns 'たべた' through the first guard, whatever the normaliser. */
  lemma AdjustExampleTabeta(norm: Normaliser)
    ensures Adjust(norm, "たべた", "たべる", "たべる") == Some("たべた")
  {
    AdjustSameReading(norm, "たべた", "たべる", "たべる");
  }

  /** adjust_reading('死ん', '死ぬ', 'しぬ') strips the shared ぬ and gives 'しん'. */
  lemma AdjustExampleShinu()
    ensures Adjust(SampleKatakana, "死ん", "死ぬ", "しぬ") == Some("しん")
  {
    var norm := SampleKatakana;
    assert SampleKatakana("死ぬ")[0] == '死' && SampleKatakana("しぬ")[0] == 'シ';
    assert SampleKatakana("死ん")[1] == 'ン' && SampleKatakana("死ぬ")[1] == 'ヌ';
    assert TailMatch(norm, "死ぬ", "しぬ", 0) by {
      assert norm("ぬ") == "ヌ";
    }
    assert !TailMatch(norm, "死ぬ", "しぬ", 1) by {
      assert norm("死") == "死" && norm("し") == "シ";
    }
    AdjustStrips(norm, "死ん", "死ぬ", "しぬ", 1);
    assert "しぬ"[..1] + "死ん"[1..] == "しん";
  }

  /** adjust_reading('言い方', '言い方', 'いいかた') gives the reading 'いいかた' through the second guard. */
  lemma AdjustExampleIikata()
    ensures Adjust(SampleKatakana, "言い方", "言い方", "いいかた") == Some("いいかた")
  {
    assert SampleKatakana("言い方")[0] == '言' && SampleKatakana("いいかた")[0] == 'イ';
  }

  /** adjust_reading('カタカナ', 'カタカナ', 'かたかな') gives the raw word through the first guard. */
  lemma AdjustExampleKatakana()
    ensures Adjust(SampleKatakana, "カタカナ", "カタカナ", "かたかな") == Some("カタカナ")
  {
    assert SampleKatakana("カタカナ") == "カタカナ";
    assert SampleKatakana("かたかな") == "カタカナ";
  }

  /** adjust_reading('跪いた', '跪く', 'ひざまずく') strips the shared く and gives 'ひざまずいた'. */
  lemma AdjustExampleHizamazuku(raw: string, headword: string, reading: string)
    requires raw == "跪いた" && headword == "跪く" && reading == "ひざまずく"
    ensures Adjust(SampleKatakana, raw, headword, reading) == Some("ひざまずいた")
  {
    HizamazukuGuards(raw, headword, reading);
    HizamazukuTails(headword, reading);
    AdjustStrips(SampleKatakana, raw, headword, reading, 1);
    HizamazukuSplice(raw, headword, reading);
  }

  lemma HizamazukuGuards(raw: string, headword: string, reading: string)
    requires raw == "跪いた" && headword == "跪く" && reading == "ひざまずく"
    ensures SampleKatakana(headword) != SampleKatakana(reading)
    ensures SampleKatakana(headword) != SampleKatakana(raw)
  {
    assert SampleKatakana(headword)[0] == '跪' && SampleKatakana(reading)[0] == 'ヒ';
    assert |SampleKatakana(headword)| == 2 && |SampleKatakana(raw)| == 3;
  }

  lemma HizamazukuTails(headword: string, reading: string)
    requires headword == "跪く" && reading == "ひざまずく"
    ensures TailMatch(SampleKatakana, headword, reading, 0)
    ensures !TailMatch(SampleKatakana, headword, reading, 1)
  {
    assert [headword[1]] == "く" && [reading[4]] == "く";
    assert SampleKatakana("く") == "ク";
    assert [headword[0]] == "跪" && [reading[3]] == "ず";
    assert SampleKatakana("跪") == "跪" && SampleKatakana("ず") == "ズ";
  }

  lemma HizamazukuSplice(raw: string, headword: string, reading: string)
    requires raw == "跪いた" && headword == "跪く" && reading == "ひざまずく"
    ensures reading[..|reading| - 1] + raw[SliceBound(|raw|, |headword| - 1)..] == "ひざまずいた"
  {
    assert SliceBound(|raw|, |headword| - 1) == 1;
  }
}

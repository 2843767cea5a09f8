/**
  The merger half of helpers/mingle_readings.py: word_reading turns one
  furigana notation into a (word, reading) pair, and mingle_readings packs
  several notations of the same phrase into one, listing every distinct
  reading of a token once inside its brackets.
*/
module Mingle {
  import opened Text
  import opened Furigana
  import opened Brackets

  /** A word with its reading; an empty reading says "no separate reading". */
  datatype WordReading = WordReading(word: string, reading: string)

  // ---------------------------------------------------------------------------
  // word_reading
  // ---------------------------------------------------------------------------

  /** head + suffix of every token. */
  function TokenWords(tokens: seq<string>): seq<string>
  {
    Map(WordOf, tokens)
  }

  /** head + suffix of one token. */
  function WordOf(t: string): string
  {
    Decompose(t).head + Decompose(t).suffix
  }

  /** reading + suffix of every token. */
  function TokenReadings(tokens: seq<string>): seq<string>
  {
    Map(ReadingOf, tokens)
  }

  /** reading + suffix of one token. */
  function ReadingOf(t: string): string
  {
    Decompose(t).reading + Decompose(t).suffix
  }

  /** The word a notation spells: every token's head and suffix, joined without spaces. */
  function NotationWord(text: string): string
  {
    Concat(TokenWords(WhitespaceSplit(text)))
  }

  /** The reading a notation spells: every token's reading and suffix, joined without spaces. */
  function NotationReading(text: string): string
  {
    Concat(TokenReadings(WhitespaceSplit(text)))
  }

  /**
    word_reading: the word is the heads with their suffixes, the reading the
    readings with their suffixes. When that reading is empty or spells the
    word itself, the notation is returned as the word with the empty reading.
  */
  function WordReadingOf(text: string): (r: WordReading)
    ensures NotationReading(text) != "" && NotationWord(text) != NotationReading(text) ==>
      r == WordReading(NotationWord(text), NotationReading(text))
    ensures NotationReading(text) == "" || NotationWord(text) == NotationReading(text) ==>
      r == WordReading(text, "")
    ensures r.reading != "" ==> r.word != r.reading
  {
    var tokens := WhitespaceSplit(text);
    var word := Concat(TokenWords(tokens));
    var reading := Concat(TokenReadings(tokens));
    if reading != "" && word != reading then WordReading(word, reading) else WordReading(text, "")
  }

  /** word_reading, with its loop over the tokens in ReadTokens. */
  method ComputeWordReading(text: string) returns (r: WordReading)
    ensures r == WordReadingOf(text)
  {
    var tokens := WhitespaceSplit(text);
    var word, reading := ReadTokens(tokens);
    var w, rd := Concat(word), Concat(reading);
    if rd != "" && w != rd {
      r := WordReading(w, rd);
    } else {
      r := WordReading(text, "");
    }
  }

  /** The loop of word_reading, appending to the word list and the reading list. */
  method ReadTokens(tokens: seq<string>) returns (word: seq<string>, reading: seq<string>)
    ensures word == TokenWords(tokens) && reading == TokenReadings(tokens)
  {
    word, reading := [], [];
    for i := 0 to |tokens|
      invariant word == TokenWords(tokens[..i])
      invariant reading == TokenReadings(tokens[..i])
    {
      var split := DecomposeWord(tokens[i]);
      TokensSnoc(tokens, i);
      word := word + [split.head + split.suffix];
      reading := reading + [split.reading + split.suffix];
    }
    assert tokens[..|tokens|] == tokens;
  }

  lemma TokensSnoc(tokens: seq<string>, i: nat)
    requires i < |tokens|
    ensures TokenWords(tokens[..i + 1]) == TokenWords(tokens[..i]) + [WordOf(tokens[i])]
    ensures TokenReadings(tokens[..i + 1]) == TokenReadings(tokens[..i]) + [ReadingOf(tokens[i])]
  {
    MapSnoc(WordOf, tokens, i);
    MapSnoc(ReadingOf, tokens, i);
  }

  /** A token without brackets decomposes to itself as head and reading. */
  lemma DecomposePlainToken(t: string)
    requires t != "" && NoBracket(t)
    ensures Decompose(t) == SplitFurigana(t, t, "")
  {
    assert ']' !in t;
    DecomposeMalformed(t);
  }

  /** A notation without brackets has no separate reading. */
  lemma WordReadingPlain(text: string)
    requires NoBracket(text)
    ensures WordReadingOf(text) == WordReading(text, "")
  {
    var tokens := WhitespaceSplit(text);
    forall k | 0 <= k < |tokens|
      ensures WordOf(tokens[k]) == ReadingOf(tokens[k])
    {
      PlainTokenOf(text, k);
    }
    MapSame(WordOf, ReadingOf, tokens);
  }

  lemma PlainTokenOf(text: string, k: nat)
    requires NoBracket(text) && k < |WhitespaceSplit(text)|
    ensures WordOf(WhitespaceSplit(text)[k]) == ReadingOf(WhitespaceSplit(text)[k])
  {
    TieOfPlain(text);
    var t := WhitespaceSplit(text)[k];
    forall c | c in t
      ensures !IsBracket(c)
    {
      SplitWhitespaceChars(text, c);
    }
    DecomposePlainToken(t);
  }

  // ---------------------------------------------------------------------------
  // pairs
  // ---------------------------------------------------------------------------

  /** pairs: every element with its successor, in order. */
  function Pairs<T>(s: seq<T>): (r: seq<(T, T)>)
    ensures |r| == if |s| == 0 then 0 else |s| - 1
    ensures forall i :: 0 <= i < |r| ==> r[i] == (s[i], s[i + 1])
  {
    if |s| < 2 then [] else [(s[0], s[1])] + Pairs(s[1..])
  }

  // ---------------------------------------------------------------------------
  // mingle_readings
  // ---------------------------------------------------------------------------

  /** The tokens of every notation. */
  function SplitAll(words: seq<string>): (split: seq<seq<string>>)
  {
    seq(|words|, i requires 0 <= i < |words| => WhitespaceSplit(words[i]))
  }

  /** Some two neighbouring notations have different numbers of tokens. */
  predicate Mismatched(split: seq<seq<string>>)
  {
    exists i :: 0 <= i < |Pairs(split)| && |Pairs(split)[i].0| != |Pairs(split)[i].1|
  }

  /** Every notation has as many tokens as the first. */
  predicate Aligned(split: seq<seq<string>>)
  {
    forall j :: 0 <= j < |split| ==> |split[j]| == |split[0]|
  }

  /** Comparing neighbours is enough: no neighbouring mismatch exactly when all counts agree. */
  lemma MismatchedIff(split: seq<seq<string>>)
    requires |split| >= 1
    ensures !Mismatched(split) <==> Aligned(split)
  {
    var ps := Pairs(split);
    if !Mismatched(split) {
      forall j | 0 <= j < |split|
        ensures |split[j]| == |split[0]|
      {
        SameCountUpTo(split, j);
      }
    }
    if Aligned(split) {
      forall i | 0 <= i < |ps|
        ensures |ps[i].0| == |ps[i].1|
      {
        assert ps[i] == (split[i], split[i + 1]);
      }
    }
  }

  lemma {:induction false} SameCountUpTo(split: seq<seq<string>>, j: nat)
    requires j < |split| && !Mismatched(split)
    ensures |split[j]| == |split[0]|
    decreases j
  {
    if j > 0 {
      SameCountUpTo(split, j - 1);
      var ps := Pairs(split);
      assert ps[j - 1] == (split[j - 1], split[j]);
    }
  }

  /** The k-th token of every notation. */
  function Column(split: seq<seq<string>>, k: nat): (col: seq<string>)
    requires forall j :: 0 <= j < |split| ==> k < |split[j]|
  {
    seq(|split|, j requires 0 <= j < |split| => split[j][k])
  }

  /** The readings of the tokens of one column. */
  function ColumnReadings(col: seq<string>): seq<string>
  {
    seq(|col|, j requires 0 <= j < |col| => Decompose(col[j]).reading)
  }

  /**
    One pack of mingle_readings: the distinct readings of the column in
    first-seen order, joined with sep, set on the head and suffix of the first
    notation's token; the head alone when the joined readings spell it.
  */
  function Pack(col: seq<string>, sep: string): string
    requires |col| >= 1
  {
    Wrap(Decompose(col[0]), Join(Dedup(ColumnReadings(col)), sep))
  }

  /** The readings set on a head and its suffix, or the head alone when they spell it. */
  function Wrap(first: SplitFurigana, joined: string): string
  {
    if joined != first.head then " " + first.head + "[" + joined + "]" + first.suffix else first.head
  }

  /** The packs of the first n columns. */
  function Packs(split: seq<seq<string>>, n: nat, sep: string): (packs: seq<string>)
    requires |split| >= 1
    requires forall j :: 0 <= j < |split| ==> n <= |split[j]|
    ensures |packs| == n
  {
    if n == 0 then [] else Packs(split, n - 1, sep) + [Pack(Column(split, n - 1), sep)]
  }

  /**
    mingle_readings for at least two notations: the first notation unchanged
    when the token counts of two neighbours differ, else the packs of all
    columns, concatenated.
  */
  function Mingled(words: seq<string>, sep: string): string
    requires |words| >= 2
  {
    var split := SplitAll(words);
    if Mismatched(split) then words[0]
    else
      MismatchedIff(split);
      Concat(Packs(split, |split[0]|, sep))
  }

  /** mingle_readings, with its loop over the columns in PackColumns. */
  method MingleReadings(words: seq<string>, sep: string) returns (out: string)
    requires |words| >= 2
    ensures out == Mingled(words, sep)
  {
    var split := SplitAll(words);
    if Mismatched(split) {
      return words[0];
    }
    MismatchedIff(split);
    var packs := PackColumns(split, sep);
    out := Concat(packs);
  }

  /** The loop of mingle_readings: one pack per column, appended in order. */
  method PackColumns(split: seq<seq<string>>, sep: string) returns (packs: seq<string>)
    requires |split| >= 1 && Aligned(split)
    ensures packs == Packs(split, |split[0]|, sep)
  {
    packs := [];
    for k := 0 to |split[0]|
      invariant packs == Packs(split, k, sep)
    {
      var col := Column(split, k);
      var first := DecomposeWord(col[0]);
      var joined := Join(Dedup(ColumnReadings(col)), sep);
      var pack := if joined != first.head then " " + first.head + "[" + joined + "]" + first.suffix else first.head;
      assert pack == Wrap(first, joined);
      PackOf(col, sep, first, joined);
      SnocSame(packs + [pack], packs, pack, Packs(split, k + 1, sep), Packs(split, k, sep), Pack(col, sep));
      packs := packs + [pack];
    }
  }

  lemma PackOf(col: seq<string>, sep: string, first: SplitFurigana, joined: string)
    requires |col| >= 1 && first == Decompose(col[0]) && joined == Join(Dedup(ColumnReadings(col)), sep)
    ensures Pack(col, sep) == Wrap(first, joined)
  {
  }

  /** When every notation has as many tokens as the first, mingle_readings concatenates the packs. */
  lemma MingledAligned(words: seq<string>, sep: string)
    requires |words| >= 2 && Aligned(SplitAll(words))
    ensures Mingled(words, sep) == Concat(Packs(SplitAll(words), |SplitAll(words)[0]|, sep))
  {
    MismatchedIff(SplitAll(words));
  }

  /** Two notations with different token counts, neighbours or not, make mingle_readings give up. */
  lemma MingleCountMismatch(words: seq<string>, sep: string, i: nat, j: nat)
    requires |words| >= 2 && i < |words| && j < |words|
    requires |WhitespaceSplit(words[i])| != |WhitespaceSplit(words[j])|
    ensures Mingled(words, sep) == words[0]
  {
    var split := SplitAll(words);
    MismatchedIff(split);
    assert split[i] == WhitespaceSplit(words[i]) && split[j] == WhitespaceSplit(words[j]);
  }

  /** The pack of a token on its own: its reading in brackets, or its head when the two agree. */
  function Single(t: string): string
  {
    var d := Decompose(t);
    Wrap(d, d.reading)
  }

  /** When all notations give a column the same reading, its pack is the first token on its own. */
  lemma PackOfOneReading(col: seq<string>, sep: string)
    requires |col| >= 1
    requires forall j :: 0 <= j < |col| ==> Decompose(col[j]).reading == Decompose(col[0]).reading
    ensures Pack(col, sep) == Single(col[0])
  {
    var rs := ColumnReadings(col);
    DedupConstant(rs);
  }

  /** Every token of a notation on its own. */
  function Singles(tokens: seq<string>): seq<string>
  {
    Map(Single, tokens)
  }

  /** Notations that agree on the reading of every token. */
  predicate ReadingsAgree(split: seq<seq<string>>)
    requires |split| >= 1 && Aligned(split)
  {
    forall j, k :: 0 <= j < |split| && 0 <= k < |split[0]| ==>
      Decompose(split[j][k]).reading == Decompose(split[0][k]).reading
  }

  /**
    When the notations agree on the reading of every token, mingle_readings
    gives the first notation's tokens on their own: heads and suffixes of the
    other notations play no part.
  */
  lemma MingleAgreeing(words: seq<string>, sep: string)
    requires |words| >= 2
    requires Aligned(SplitAll(words)) && ReadingsAgree(SplitAll(words))
    ensures Mingled(words, sep) == Concat(Singles(WhitespaceSplit(words[0])))
  {
    var split := SplitAll(words);
    MismatchedIff(split);
    PacksAgreeing(split, sep);
  }

  lemma PacksAgreeing(split: seq<seq<string>>, sep: string)
    requires |split| >= 1 && Aligned(split) && ReadingsAgree(split)
    ensures Packs(split, |split[0]|, sep) == Singles(split[0])
  {
    PacksAgreeingUpTo(split, |split[0]|, sep);
    assert split[0][..|split[0]|] == split[0];
  }

  lemma {:induction false} PacksAgreeingUpTo(split: seq<seq<string>>, n: nat, sep: string)
    requires |split| >= 1 && Aligned(split) && ReadingsAgree(split) && n <= |split[0]|
    ensures Packs(split, n, sep) == Singles(split[0][..n])
    decreases n
  {
    if n > 0 {
      PacksAgreeingUpTo(split, n - 1, sep);
      PackIsSingle(split, n - 1, sep);
      PacksStep(split, n, sep);
    } else {
      assert Singles(split[0][..0]) == [];
    }
  }

  /** Extending both sides by one column keeps the packs equal to the singles. */
  lemma PacksStep(split: seq<seq<string>>, n: nat, sep: string)
    requires |split| >= 1 && (forall j :: 0 <= j < |split| ==> n <= |split[j]|) && 0 < n <= |split[0]|
    requires Packs(split, n - 1, sep) == Singles(split[0][..n - 1])
    requires Pack(Column(split, n - 1), sep) == Single(split[0][n - 1])
    ensures Packs(split, n, sep) == Singles(split[0][..n])
  {
    SinglesSnoc(split[0], n - 1);
    SnocSame(Packs(split, n, sep), Packs(split, n - 1, sep), Pack(Column(split, n - 1), sep),
      Singles(split[0][..n]), Singles(split[0][..n - 1]), Single(split[0][n - 1]));
  }

  lemma SnocSame<T>(a: seq<T>, x: seq<T>, p: T, b: seq<T>, y: seq<T>, q: T)
    requires a == x + [p] && b == y + [q] && x == y && p == q
    ensures a == b
  {
  }

  lemma PackIsSingle(split: seq<seq<string>>, k: nat, sep: string)
    requires |split| >= 1 && Aligned(split) && ReadingsAgree(split) && k < |split[0]|
    ensures Pack(Column(split, k), sep) == Single(split[0][k])
  {
    ColumnAgrees(split, k);
    PackOfOneReading(Column(split, k), sep);
  }

  /** In notations that agree on every reading, each column holds one reading. */
  lemma ColumnAgrees(split: seq<seq<string>>, k: nat)
    requires |split| >= 1 && Aligned(split) && ReadingsAgree(split) && k < |split[0]|
    ensures |Column(split, k)| >= 1 && Column(split, k)[0] == split[0][k]
    ensures forall j :: 0 <= j < |Column(split, k)| ==>
      Decompose(Column(split, k)[j]).reading == Decompose(Column(split, k)[0]).reading
  {
  }

  lemma SinglesSnoc(tokens: seq<string>, i: nat)
    requires i < |tokens|
    ensures Singles(tokens[..i + 1]) == Singles(tokens[..i]) + [Single(tokens[i])]
  {
    MapSnoc(Single, tokens, i);
  }
}

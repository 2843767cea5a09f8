/**
  The handful of Python string and sequence built-ins that the core relies on,
  written out so that their edge cases are explicit: str.isspace, str.find,
  str.strip, str.split with and without a separator, str.join, str.replace,
  str.endswith, and the order-preserving de-duplication that dict.fromkeys and
  the "append if not already present" loops perform.
*/
module Text {

  /** A value, or the absence of one (an exception the operation raises). */
  datatype Option<T> = None | Some(value: T)

  /** Python's str.isspace() on a single character. */
  predicate IsSpace(c: char)
  {
    || c == ' '
    || ('\t' <= c <= '\r')
    || ('\U{1c}' <= c <= '\U{1f}')
    || c == '\U{85}' || c == '\U{a0}' || c == '\U{1680}'
    || ('\U{2000}' <= c <= '\U{200a}')
    || c == '\U{2028}' || c == '\U{2029}' || c == '\U{202f}' || c == '\U{205f}'
    || c == '\U{3000}'
  }

  predicate NoSpace(s: string)
  {
    forall i :: 0 <= i < |s| ==> !IsSpace(s[i])
  }

  /** The characters of s that are not whitespace, in order. */
  function RemoveSpaces(s: string): (r: string)
    ensures NoSpace(r)
    ensures forall c :: c in r ==> c in s
  {
    if s == "" then ""
    else if IsSpace(s[0]) then RemoveSpaces(s[1..])
    else [s[0]] + RemoveSpaces(s[1..])
  }

  lemma {:induction false} RemoveSpacesAppend(a: string, b: string)
    ensures RemoveSpaces(a + b) == RemoveSpaces(a) + RemoveSpaces(b)
    decreases |a|
  {
    if a != "" {
      assert (a + b)[1..] == a[1..] + b;
      RemoveSpacesAppend(a[1..], b);
    } else {
      assert a + b == b;
    }
  }

  lemma {:induction false} RemoveSpacesOfNoSpace(s: string)
    requires NoSpace(s)
    ensures RemoveSpaces(s) == s
    decreases |s|
  {
    if s != "" {
      RemoveSpacesOfNoSpace(s[1..]);
    }
  }

  /** str.find for one character: the first index of c in s, or -1. */
  function IndexOf(s: string, c: char): (k: int)
    ensures -1 <= k < |s|
    ensures k >= 0 ==> s[k] == c && c !in s[..k]
    ensures k < 0 ==> c !in s
  {
    if |s| == 0 then -1
    else if s[0] == c then 0
    else
      var k := IndexOf(s[1..], c);
      if k < 0 then -1
      else
        assert s[..k + 1] == [s[0]] + s[1..][..k];
        k + 1
  }

  /** str.rfind for one character: the last index of c in s, or -1. */
  function LastIndexOf(s: string, c: char): (k: int)
    ensures -1 <= k < |s|
    ensures k >= 0 ==> s[k] == c && c !in s[k + 1..]
    ensures k < 0 ==> c !in s
  {
    if |s| == 0 then -1
    else if s[|s| - 1] == c then |s| - 1
    else
      var k := LastIndexOf(s[..|s| - 1], c);
      if k >= 0 then
        assert s[k + 1..] == s[..|s| - 1][k + 1..] + [s[|s| - 1]];
        k
      else
        assert s == s[..|s| - 1] + [s[|s| - 1]];
        k
  }

  /** str.endswith. */
  predicate EndsWith(s: string, suffix: string)
  {
    |suffix| <= |s| && s[|s| - |suffix|..] == suffix
  }

  /** "".join(ss). */
  function Concat(ss: seq<string>): string
  {
    if ss == [] then "" else ss[0] + Concat(ss[1..])
  }

  lemma {:induction false} ConcatAppend(a: seq<string>, b: seq<string>)
    ensures Concat(a + b) == Concat(a) + Concat(b)
    decreases |a|
  {
    if a == [] {
      assert a + b == b;
    } else {
      assert (a + b)[1..] == a[1..] + b;
      ConcatAppend(a[1..], b);
    }
  }

  /** f applied to every element, in order. */
  function Map<A, B>(f: A -> B, s: seq<A>): seq<B>
  {
    seq(|s|, k requires 0 <= k < |s| => f(s[k]))
  }

  lemma MapSnoc<A, B>(f: A -> B, s: seq<A>, i: nat)
    requires i < |s|
    ensures Map(f, s[..i + 1]) == Map(f, s[..i]) + [f(s[i])]
  {
  }

  lemma MapSame<A, B>(f: A -> B, g: A -> B, s: seq<A>)
    requires forall k :: 0 <= k < |s| ==> f(s[k]) == g(s[k])
    ensures Map(f, s) == Map(g, s)
  {
  }

  lemma MapPair<A, B>(f: A -> B, a: A, b: A)
    ensures Map(f, [a, b]) == [f(a), f(b)]
  {
  }

  /** sep.join(ss). */
  function Join(ss: seq<string>, sep: string): string
  {
    if |ss| == 0 then ""
    else if |ss| == 1 then ss[0]
    else ss[0] + sep + Join(ss[1..], sep)
  }

  lemma JoinTwo(a: string, b: string, sep: string)
    ensures Join([a, b], sep) == a + sep + b
  {
    assert [a, b][1..] == [b];
  }

  /** The text a join puts before a piece that follows ss: their join and a separator, or nothing. */
  function JoinBefore(ss: seq<string>, sep: string): string
  {
    if ss == [] then "" else Join(ss, sep) + sep
  }

  /** The text a join puts after a piece that precedes ss: a separator and their join, or nothing. */
  function JoinAfter(ss: seq<string>, sep: string): string
  {
    if ss == [] then "" else sep + Join(ss, sep)
  }

  /** A join with m among the pieces: m stands between the join of the pieces before and after it. */
  lemma {:induction false} JoinAround(pre: seq<string>, m: string, post: seq<string>, sep: string)
    ensures Join(pre + [m] + post, sep) == JoinBefore(pre, sep) + m + JoinAfter(post, sep)
    decreases |pre|
  {
    if pre == [] {
      assert pre + [m] + post == [m] + post;
      JoinCons(m, post, sep);
    } else {
      var x, rest := pre[0], pre[1..];
      assert pre + [m] + post == [x] + (rest + [m] + post);
      JoinCons(x, rest + [m] + post, sep);
      JoinAround(rest, m, post, sep);
      assert pre == [x] + rest;
      JoinBeforeCons(x, rest, sep);
    }
  }

  /** The join of x followed by rest. */
  lemma JoinCons(x: string, rest: seq<string>, sep: string)
    ensures Join([x] + rest, sep) == x + JoinAfter(rest, sep)
  {
    if rest != [] {
      assert ([x] + rest)[1..] == rest;
    }
  }

  lemma JoinBeforeCons(x: string, rest: seq<string>, sep: string)
    ensures JoinBefore([x] + rest, sep) == x + sep + JoinBefore(rest, sep)
  {
    JoinCons(x, rest, sep);
  }

  /** A join ends with its last piece. */
  lemma {:induction false} JoinEndsWithLast(ss: seq<string>, sep: string)
    requires |ss| >= 1
    ensures EndsWith(Join(ss, sep), ss[|ss| - 1])
    decreases |ss|
  {
    if |ss| > 1 {
      JoinEndsWithLast(ss[1..], sep);
      var j := Join(ss, sep);
      var last := ss[|ss| - 1];
      assert j == ss[0] + sep + Join(ss[1..], sep);
      assert j[|j| - |last|..] == Join(ss[1..], sep)[|Join(ss[1..], sep)| - |last|..];
    }
  }

  /** str.split(c) for a one-character separator c: empty fields are kept. */
  function SplitOn(s: string, c: char): (r: seq<string>)
    ensures |r| >= 1
    ensures forall i :: 0 <= i < |r| ==> c !in r[i]
    ensures Join(r, [c]) == s
    decreases |s|
  {
    var k := IndexOf(s, c);
    if k < 0 then [s]
    else
      var rest := SplitOn(s[k + 1..], c);
      SplitOnStep(s, c, k, rest);
      [s[..k]] + rest
  }

  /** The field before the first separator, then the fields of the rest, split s. */
  lemma SplitOnStep(s: string, c: char, k: nat, rest: seq<string>)
    requires k < |s| && s[k] == c && c !in s[..k]
    requires |rest| >= 1 && Join(rest, [c]) == s[k + 1..]
    requires forall i :: 0 <= i < |rest| ==> c !in rest[i]
    ensures forall i :: 0 <= i < |[s[..k]] + rest| ==> c !in ([s[..k]] + rest)[i]
    ensures Join([s[..k]] + rest, [c]) == s
  {
    var r := [s[..k]] + rest;
    assert r[1..] == rest;
    calc {
      Join(r, [c]);
      s[..k] + [c] + Join(rest, [c]);
      s[..k] + [c] + s[k + 1..];
      { assert s == s[..k] + [c] + s[k + 1..]; }
      s;
    }
  }

  /** There is one more piece than there are separators. */
  lemma {:induction false} SplitOnCount(s: string, c: char)
    ensures |SplitOn(s, c)| == multiset(s)[c] + 1
    decreases |s|
  {
    var k := IndexOf(s, c);
    if k < 0 {
      assert multiset(s)[c] == 0;
    } else {
      SplitOnCount(s[k + 1..], c);
      assert |SplitOn(s, c)| == 1 + |SplitOn(s[k + 1..], c)|;
      MultisetCut(s, k, c);
    }
  }

  lemma MultisetCut(s: string, k: nat, c: char)
    requires k < |s| && s[k] == c && c !in s[..k]
    ensures multiset(s)[c] == multiset(s[k + 1..])[c] + 1
  {
    assert s == s[..k] + [c] + s[k + 1..];
    assert multiset(s) == multiset(s[..k]) + multiset([c]) + multiset(s[k + 1..]);
    assert multiset(s[..k])[c] == 0;
  }

  /** Splitting the join of separator-free pieces gives the pieces back. */
  lemma {:induction false} SplitOnOfJoin(ss: seq<string>, c: char)
    requires |ss| >= 1
    requires forall i :: 0 <= i < |ss| ==> c !in ss[i]
    ensures SplitOn(Join(ss, [c]), c) == ss
    decreases |ss|
  {
    if |ss| == 1 {
      assert IndexOf(ss[0], c) < 0;
    } else {
      var s := Join(ss, [c]);
      assert s == ss[0] + [c] + Join(ss[1..], [c]);
      IndexOfAfter(ss[0], Join(ss[1..], [c]), c);
      assert s[|ss[0]| + 1..] == Join(ss[1..], [c]);
      assert s[..|ss[0]|] == ss[0];
      SplitOnOfJoin(ss[1..], c);
    }
  }

  /** The first c in x + b, when x has none, is the first c of b moved by |x|. */
  lemma IndexOfShift(x: string, b: string, c: char)
    requires c !in x
    ensures IndexOf(x + b, c) == if IndexOf(b, c) < 0 then -1 else |x| + IndexOf(b, c)
  {
    var s := x + b;
    assert s[..|x|] == x;
    assert s[|x|..] == b;
    var k := IndexOf(b, c);
    if k >= 0 {
      assert s[|x| + k] == c;
      assert s[..|x| + k] == x + b[..k];
    } else {
      assert forall i :: |x| <= i < |s| ==> s[i] == b[i - |x|];
    }
  }

  /** A separator-free prefix joins the first field. */
  lemma SplitOnPrefix(x: string, b: string, c: char)
    requires c !in x
    ensures SplitOn(x + b, c) == [x + SplitOn(b, c)[0]] + SplitOn(b, c)[1..]
  {
    var k := IndexOf(b, c);
    if k >= 0 {
      var u, v := b[..k], b[k + 1..];
      assert b == u + [c] + v;
      assert x + b == (x + u) + [c] + v;
      NotInConcat(x, u, c);
      SplitOnCons(x + u, v, c);
      SplitOnCons(u, v, c);
    } else {
      NotInConcat(x, b, c);
      SplitOnFree(b, c);
      SplitOnFree(x + b, c);
    }
  }

  lemma NotInConcat(x: string, y: string, c: char)
    requires c !in x && c !in y
    ensures c !in x + y
  {
    assert forall i :: 0 <= i < |x + y| ==> (x + y)[i] in x || (x + y)[i] in y;
  }

  lemma SplitOnFree(s: string, c: char)
    requires c !in s
    ensures SplitOn(s, c) == [s]
  {
  }

  /**
    The pieces of a + e + b, for an e without the separator: e lands inside a
    single piece, the one joining the last piece of a to the first of b.
  */
  lemma {:induction false} SplitOnAround(a: string, e: string, b: string, c: char)
    requires c !in e
    ensures SplitOn(a + e + b, c) == Glue(SplitOn(a, c), e, SplitOn(b, c))
    decreases |a|
  {
    var k := IndexOf(a, c);
    if k < 0 {
      SplitOnAroundFree(a, e, b, c);
    } else {
      var x, rest := a[..k], a[k + 1..];
      CutAt(a, k, e, b);
      SplitOnAround(rest, e, b, c);
      SplitOnAroundStep(x, rest, e, b, c);
    }
  }

  /** The pieces sa and sb with e between them, the last of sa and the first of sb made one. */
  function Glue(sa: seq<string>, e: string, sb: seq<string>): (r: seq<string>)
    requires |sa| >= 1 && |sb| >= 1
    ensures |r| == |sa| + |sb| - 1
  {
    sa[..|sa| - 1] + [sa[|sa| - 1] + e + sb[0]] + sb[1..]
  }

  /** The inductive step of SplitOnAround: a leading field x and its separator. */
  lemma SplitOnAroundStep(x: string, rest: string, e: string, b: string, c: char)
    requires c !in x
    requires SplitOn(rest + e + b, c) == Glue(SplitOn(rest, c), e, SplitOn(b, c))
    ensures SplitOn(x + [c] + rest + e + b, c) == Glue(SplitOn(x + [c] + rest, c), e, SplitOn(b, c))
  {
    var sr, sb := SplitOn(rest, c), SplitOn(b, c);
    var tail := rest + e + b;
    calc {
      SplitOn(x + [c] + rest + e + b, c);
      { assert x + [c] + rest + e + b == x + [c] + tail; }
      SplitOn(x + [c] + tail, c);
      { SplitOnCons(x, tail, c); }
      [x] + Glue(sr, e, sb);
      { ConsGlue(x, sr, e, sb); }
      Glue([x] + sr, e, sb);
      { SplitOnCons(x, rest, c); }
      Glue(SplitOn(x + [c] + rest, c), e, sb);
    }
  }

  /** The base case of SplitOnAround: a holds no separator. */
  lemma SplitOnAroundFree(a: string, e: string, b: string, c: char)
    requires c !in e && IndexOf(a, c) < 0
    ensures SplitOn(a + e + b, c) == Glue(SplitOn(a, c), e, SplitOn(b, c))
  {
    var sa, sb := SplitOn(a, c), SplitOn(b, c);
    assert sa == [a];
    assert c !in a + e by {
      assert forall i :: 0 <= i < |a + e| ==> (a + e)[i] in a || (a + e)[i] in e;
    }
    SplitOnPrefix(a + e, b, c);
    assert sa[..|sa| - 1] == [] && sa[|sa| - 1] == a;
  }

  lemma CutAt(a: string, k: nat, e: string, b: string)
    requires k < |a|
    ensures a == a[..k] + [a[k]] + a[k + 1..]
    ensures a + e + b == a[..k] + [a[k]] + (a[k + 1..] + e + b)
  {
    assert a + e + b == a + (e + b);
    assert a == a[..k] + [a[k]] + a[k + 1..];
    assert a[k + 1..] + e + b == a[k + 1..] + (e + b);
  }

  lemma ConsGlue(x: string, sr: seq<string>, e: string, sb: seq<string>)
    requires |sr| >= 1 && |sb| >= 1
    ensures [x] + Glue(sr, e, sb) == Glue([x] + sr, e, sb)
  {
    var sa := [x] + sr;
    assert sa[..|sa| - 1] == [x] + sr[..|sr| - 1];
  }

  /** Splitting x + [c] + y, with x free of c, gives x and then the pieces of y. */
  lemma SplitOnCons(x: string, y: string, c: char)
    requires c !in x
    ensures SplitOn(x + [c] + y, c) == [x] + SplitOn(y, c)
  {
    var s := x + [c] + y;
    IndexOfAfter(x, y, c);
    assert s[..|x|] == x;
    assert s[|x| + 1..] == y;
  }

  /** The first c in a + [c] + b is the one after a, when a has none. */
  lemma IndexOfAfter(a: string, b: string, c: char)
    requires c !in a
    ensures IndexOf(a + [c] + b, c) == |a|
  {
    var s := a + [c] + b;
    assert s[..|a|] == a;
    assert s[|a|] == c;
  }

  /** The index of the first whitespace character of s, or |s| when there is none. */
  function FirstSpace(s: string): (k: nat)
    ensures k <= |s|
    ensures NoSpace(s[..k])
    ensures k < |s| ==> IsSpace(s[k])
  {
    if s == "" then 0
    else if IsSpace(s[0]) then 0
    else
      var k := FirstSpace(s[1..]);
      assert s[..k + 1] == [s[0]] + s[1..][..k];
      k + 1
  }

  /**
    str.split() without a separator: split on runs of whitespace, drop empty
    strings, so that leading and trailing whitespace produce no token.
  */
  function SplitWhitespace(s: string): (r: seq<string>)
    ensures forall i :: 0 <= i < |r| ==> r[i] != "" && NoSpace(r[i])
    ensures Concat(r) == RemoveSpaces(s)
    decreases |s|
  {
    if s == "" then []
    else if IsSpace(s[0]) then SplitWhitespace(s[1..])
    else
      var k := FirstSpace(s);
      var rest := SplitWhitespace(s[k..]);
      assert s == s[..k] + s[k..];
      RemoveSpacesAppend(s[..k], s[k..]);
      RemoveSpacesOfNoSpace(s[..k]);
      var r := [s[..k]] + rest;
      assert r[1..] == rest;
      r
  }

  /** Every token of str.split() is made of characters of the input. */
  lemma {:induction false} SplitWhitespaceChars(s: string, c: char)
    ensures forall i :: 0 <= i < |SplitWhitespace(s)| && c in SplitWhitespace(s)[i] ==> c in s
    decreases |s|
  {
    if s != "" {
      if IsSpace(s[0]) {
        SplitWhitespaceChars(s[1..], c);
      } else {
        var k := FirstSpace(s);
        SplitWhitespaceChars(s[k..], c);
        var r := SplitWhitespace(s);
        assert r[1..] == SplitWhitespace(s[k..]);
        assert r[0] == s[..k];
      }
    }
  }

  /** Splitting tokens joined by single spaces gives the tokens back. */
  lemma {:induction false} SplitWhitespaceOfJoin(tokens: seq<string>)
    requires forall i :: 0 <= i < |tokens| ==> tokens[i] != "" && NoSpace(tokens[i])
    ensures SplitWhitespace(Join(tokens, " ")) == tokens
    decreases |tokens|
  {
    if |tokens| == 1 {
      SplitWhitespaceCons(tokens[0], "");
      assert tokens[0] + "" == tokens[0];
    } else if |tokens| > 1 {
      var rest := Join(tokens[1..], " ");
      SplitWhitespaceCons(tokens[0], " " + rest);
      assert tokens[0] + " " + rest == tokens[0] + (" " + rest);
      assert (" " + rest)[1..] == rest;
      SplitWhitespaceOfJoin(tokens[1..]);
      assert [tokens[0]] + tokens[1..] == tokens;
    }
  }

  lemma SplitWhitespaceCons(t: string, u: string)
    requires t != "" && NoSpace(t)
    requires u == "" || IsSpace(u[0])
    ensures SplitWhitespace(t + u) == [t] + SplitWhitespace(u)
  {
    var s := t + u;
    FirstSpaceOfNoSpace(t, u);
    assert s[..|t|] == t;
    assert s[|t|..] == u;
  }

  lemma {:induction false} FirstSpaceOfNoSpace(t: string, u: string)
    requires NoSpace(t)
    requires u == "" || IsSpace(u[0])
    ensures FirstSpace(t + u) == |t|
    decreases |t|
  {
    if t == "" {
      assert t + u == u;
    } else {
      assert (t + u)[1..] == t[1..] + u;
      FirstSpaceOfNoSpace(t[1..], u);
    }
  }

  /** str.lstrip() with no argument. */
  function TrimStart(s: string): (r: string)
    ensures |r| <= |s| && r == s[|s| - |r|..]
    ensures r == "" || !IsSpace(r[0])
    ensures forall i :: 0 <= i < |s| - |r| ==> IsSpace(s[i])
  {
    if s != "" && IsSpace(s[0]) then TrimStart(s[1..]) else s
  }

  /** str.rstrip() with no argument. */
  function TrimEnd(s: string): (r: string)
    ensures |r| <= |s| && r == s[..|r|]
    ensures r == "" || !IsSpace(r[|r| - 1])
    ensures forall i :: |r| <= i < |s| ==> IsSpace(s[i])
  {
    if s != "" && IsSpace(s[|s| - 1]) then TrimEnd(s[..|s| - 1]) else s
  }

  /** str.strip() with no argument. */
  function Strip(s: string): (r: string)
  {
    TrimEnd(TrimStart(s))
  }

  /**
    str.replace(pat, rep) for a non-empty pat: every non-overlapping
    occurrence, found from left to right, is replaced.
  */
  function ReplaceAll(s: string, pat: string, rep: string): string
    requires pat != ""
    decreases |s|
  {
    if |s| < |pat| then s
    else if s[..|pat|] == pat then rep + ReplaceAll(s[|pat|..], pat, rep)
    else [s[0]] + ReplaceAll(s[1..], pat, rep)
  }

  /** pat occurs in s at index i. */
  predicate OccursAt(s: string, pat: string, i: nat)
  {
    i + |pat| <= |s| && s[i..i + |pat|] == pat
  }

  /**
    str.replace rewrites the first occurrence of pat where it stands: what
    comes before it is kept and the search goes on after it.
  */
  lemma {:induction false} ReplaceAllFirst(s: string, pat: string, rep: string, i: nat)
    requires pat != "" && OccursAt(s, pat, i)
    requires forall j :: 0 <= j < i ==> !OccursAt(s, pat, j)
    ensures ReplaceAll(s, pat, rep) == s[..i] + rep + ReplaceAll(s[i + |pat|..], pat, rep)
    decreases i
  {
    if i == 0 {
      assert s[..|pat|] == pat;
      assert s[..i] + rep == rep;
    } else {
      var t := s[1..];
      ReplaceAllMiss(s, pat, rep);
      OccursTail(s, pat, i);
      ReplaceAllFirst(t, pat, rep, i - 1);
      var rest := ReplaceAll(s[i + |pat|..], pat, rep);
      assert t[i - 1 + |pat|..] == s[i + |pat|..];
      assert ReplaceAll(t, pat, rep) == t[..i - 1] + rep + rest;
      ConsSlice(s, i, rep, rest);
    }
  }

  /** Where pat does not start s, the first character is kept as it is. */
  lemma ReplaceAllMiss(s: string, pat: string, rep: string)
    requires pat != "" && 0 < |s| && !OccursAt(s, pat, 0)
    ensures ReplaceAll(s, pat, rep) == [s[0]] + ReplaceAll(s[1..], pat, rep)
  {
    if |s| >= |pat| {
      assert s[..|pat|] != pat;
    }
    else {
      assert pat != "";
    }
  }

  /** Occurrences in s[1..] are those in s shifted down by one. */
  lemma OccursTail(s: string, pat: string, i: nat)
    requires 0 < i && OccursAt(s, pat, i)
    requires forall j :: 0 <= j < i ==> !OccursAt(s, pat, j)
    ensures OccursAt(s[1..], pat, i - 1)
    ensures forall j :: 0 <= j < i - 1 ==> !OccursAt(s[1..], pat, j)
  {
    var t := s[1..];
    assert t[i - 1..i - 1 + |pat|] == s[i..i + |pat|];
    forall j | 0 <= j < i - 1
      ensures !OccursAt(t, pat, j)
    {
      assert !OccursAt(s, pat, j + 1);
      if j + |pat| <= |t| {
        assert t[j..j + |pat|] == s[j + 1..j + 1 + |pat|];
      }
    }
  }

  /** Without any occurrence of pat, str.replace leaves s as it is. */
  lemma {:induction false} ReplaceAllNone(s: string, pat: string, rep: string)
    requires pat != "" && forall j :: 0 <= j <= |s| ==> !OccursAt(s, pat, j)
    ensures ReplaceAll(s, pat, rep) == s
    decreases |s|
  {
    if |s| >= |pat| {
      assert !OccursAt(s, pat, 0);
      var t := s[1..];
      forall j | 0 <= j <= |t|
        ensures !OccursAt(t, pat, j)
      {
        assert !OccursAt(s, pat, j + 1);
        if j + |pat| <= |t| {
          assert t[j..j + |pat|] == s[j + 1..j + 1 + |pat|];
        }
      }
      ReplaceAllNone(t, pat, rep);
      assert s == [s[0]] + t;
    }
  }

  lemma ConsSlice(s: string, i: nat, rep: string, rest: string)
    requires 0 < i <= |s|
    ensures [s[0]] + (s[1..][..i - 1] + rep + rest) == s[..i] + rep + rest
  {
    assert [s[0]] + s[1..][..i - 1] == s[..i];
  }

  /** De-duplicating a sequence of one repeated element leaves that element once. */
  lemma {:induction false} DedupConstant<T>(s: seq<T>)
    requires |s| >= 1 && forall i :: 0 <= i < |s| ==> s[i] == s[0]
    ensures Dedup(s) == [s[0]]
    decreases |s|
  {
    if |s| > 1 {
      DedupConstant(s[..|s| - 1]);
    } else {
      assert s[..0] == [];
    }
  }

  /** The first index of x in s. */
  function FirstIndex<T(==)>(s: seq<T>, x: T): (k: nat)
    requires x in s
    ensures k < |s| && s[k] == x && x !in s[..k]
  {
    if s[0] == x then 0
    else
      var k := FirstIndex(s[1..], x);
      assert s[..k + 1] == [s[0]] + s[1..][..k];
      k + 1
  }

  lemma {:induction false} FirstIndexOfPrefix<T>(s: seq<T>, x: T, y: T)
    requires y in s
    ensures FirstIndex(s + [x], y) == FirstIndex(s, y)
    decreases |s|
  {
    if s[0] != y {
      assert (s + [x])[1..] == s[1..] + [x];
      FirstIndexOfPrefix(s[1..], x, y);
    }
  }

  /**
    The distinct elements of s in the order of their first occurrence, as
    list(dict.fromkeys(s)) computes them and as a list grown by "append v if
    v not in list" holds them.
  */
  function Dedup<T(==)>(s: seq<T>): seq<T>
  {
    if s == [] then []
    else
      var d := Dedup(s[..|s| - 1]);
      if s[|s| - 1] in d then d else d + [s[|s| - 1]]
  }

  /**
    Dedup keeps every element of s exactly once, and in the order in which
    the elements first occur in s.
  */
  lemma DedupSpec<T>(s: seq<T>)
    ensures forall i, j :: 0 <= i < j < |Dedup(s)| ==> Dedup(s)[i] != Dedup(s)[j]
    ensures forall i :: 0 <= i < |Dedup(s)| ==> Dedup(s)[i] in s
    ensures forall i :: 0 <= i < |s| ==> s[i] in Dedup(s)
    ensures forall i, j :: 0 <= i < j < |Dedup(s)| ==> FirstIndex(s, Dedup(s)[i]) < FirstIndex(s, Dedup(s)[j])
  {
    DedupDistinct(s);
    DedupMembers(s);
    DedupOrder(s);
  }

  lemma {:induction false} DedupDistinct<T>(s: seq<T>)
    ensures forall i, j :: 0 <= i < j < |Dedup(s)| ==> Dedup(s)[i] != Dedup(s)[j]
    decreases |s|
  {
    if s != [] {
      var p, x := s[..|s| - 1], s[|s| - 1];
      DedupDistinct(p);
      var d := Dedup(p);
      if x !in d {
        var r := d + [x];
        assert Dedup(s) == r;
        forall i, j | 0 <= i < j < |r| ensures r[i] != r[j] {
          if j == |d| {
            assert r[i] == d[i];
          }
        }
      }
    }
  }

  lemma {:induction false} DedupMembers<T>(s: seq<T>)
    ensures forall y :: y in Dedup(s) ==> y in s
    ensures forall y :: y in s ==> y in Dedup(s)
    decreases |s|
  {
    if s != [] {
      var p, x := s[..|s| - 1], s[|s| - 1];
      assert s == p + [x];
      DedupMembers(p);
    }
  }

  lemma {:induction false} DedupOrder<T>(s: seq<T>)
    ensures forall y :: y in Dedup(s) ==> y in s
    ensures forall y :: y in s ==> y in Dedup(s)
    ensures forall i, j :: 0 <= i < j < |Dedup(s)| ==> FirstIndex(s, Dedup(s)[i]) < FirstIndex(s, Dedup(s)[j])
    decreases |s|
  {
    if s != [] {
      var p, x := s[..|s| - 1], s[|s| - 1];
      assert s == p + [x];
      DedupOrder(p);
      DedupOrderSnoc(p, x);
    }
  }

  lemma DedupOrderSnoc<T>(p: seq<T>, x: T)
    requires forall y :: y in Dedup(p) ==> y in p
    requires forall y :: y in p ==> y in Dedup(p)
    requires forall i, j :: 0 <= i < j < |Dedup(p)| ==> FirstIndex(p, Dedup(p)[i]) < FirstIndex(p, Dedup(p)[j])
    ensures forall y :: y in Dedup(p + [x]) ==> y in p + [x]
    ensures forall y :: y in p + [x] ==> y in Dedup(p + [x])
    ensures forall i, j :: 0 <= i < j < |Dedup(p + [x])| ==>
      FirstIndex(p + [x], Dedup(p + [x])[i]) < FirstIndex(p + [x], Dedup(p + [x])[j])
  {
    var s := p + [x];
    assert s[..|s| - 1] == p;
    DedupMembers(s);
    var d := Dedup(p);
    forall i | 0 <= i < |d| ensures FirstIndex(s, d[i]) == FirstIndex(p, d[i]) {
      var y := d[i];
      assert y in d;
      FirstIndexOfPrefix(p, x, y);
    }
    if x !in d {
      var r := d + [x];
      assert Dedup(s) == r;
      assert FirstIndex(s, x) == |p|;
      forall i, j | 0 <= i < j < |r| ensures FirstIndex(s, r[i]) < FirstIndex(s, r[j]) {
        assert r[i] == d[i];
        if j < |d| {
          assert r[j] == d[j];
        }
      }
    } else {
      assert Dedup(s) == d;
    }
  }
}

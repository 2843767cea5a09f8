/**
  The accent corpus record of database.py and make_accent_entry, which reads
  one line of the corpus into it: commas inside {..,..} and (..,..) groups
  are escaped to ';' first, so that such a group stays inside one field.
*/
module Accent {
  import opened Text

  /** The 19 fields of one corpus line, in their column order. */
  datatype AccentEntry = AccentEntry(
    nid: string, id: string, wavName: string, kFld: string, act: string,
    katakanaReading: string, nhk: string, kanjiExpr: string, nhkExpr: string, numberChars: string,
    devoicedPos: string, nasalSoundPos: string, majiri: string, kaisi: string, kwav: string,
    katakanaReadingAlt: string, akusentosuu: string, bunshou: string, accent: string)

  const FieldCount: nat := 19

  /** The fields of an entry in column order. */
  function Fields(e: AccentEntry): (fs: seq<string>)
    ensures |fs| == FieldCount
  {
    [e.nid, e.id, e.wavName, e.kFld, e.act,
     e.katakanaReading, e.nhk, e.kanjiExpr, e.nhkExpr, e.numberChars,
     e.devoicedPos, e.nasalSoundPos, e.majiri, e.kaisi, e.kwav,
     e.katakanaReadingAlt, e.akusentosuu, e.bunshou, e.accent]
  }

  /** The record constructor applied to exactly 19 values. */
  function EntryOf(fs: seq<string>): (e: AccentEntry)
    requires |fs| == FieldCount
    ensures Fields(e) == fs
  {
    AccentEntry(fs[0], fs[1], fs[2], fs[3], fs[4], fs[5], fs[6], fs[7], fs[8], fs[9],
                fs[10], fs[11], fs[12], fs[13], fs[14], fs[15], fs[16], fs[17], fs[18])
  }

  /** Building an entry from its own fields gives it back. */
  lemma EntryOfFields(e: AccentEntry)
    ensures EntryOf(Fields(e)) == e
  {
  }

  /**
    The lazy ".*?" followed by c, from index from: the first c, provided no
    line break comes before it ('.' does not match a line break).
  */
  function Scan(s: string, from: nat, c: char): (r: Option<nat>)
    requires c != '\n'
    ensures r.Some? ==> from <= r.value < |s| && s[r.value] == c
    ensures r.Some? ==> forall k :: from <= k < r.value ==> s[k] != c && s[k] != '\n'
    ensures r.None? ==> forall k :: from <= k < |s| && s[k] == c ==> '\n' in s[from..k]
    decreases |s| - from
  {
    if from >= |s| then None
    else if s[from] == c then Some(from)
    else if s[from] == '\n' then
      assert forall k :: from < k < |s| ==> s[from..k][0] == '\n';
      None
    else
      var r := Scan(s, from + 1, c);
      assert forall k :: from + 1 <= k < |s| ==> s[from + 1..k] == s[from..k][1..];
      r
  }

  /**
    The end (exclusive) of the match of open.*?,.*?close at index p, if one
    starts there: the first comma after the opener, then the first closer
    after that comma.
  */
  function GroupMatch(s: string, p: nat, open: char, close: char): (r: Option<nat>)
    requires p < |s| && close != '\n'
    ensures r.Some? ==> p + 3 <= r.value <= |s| && s[p] == open && s[r.value - 1] == close
    ensures r.Some? ==> ',' in s[p + 1..r.value - 1]
  {
    if s[p] != open then None
    else match Scan(s, p + 1, ',')
      case None => None
      case Some(a) =>
        match Scan(s, a + 1, close)
        case None => None
        case Some(b) =>
          assert s[p + 1..b][a - p - 1] == ',';
          Some(b + 1)
  }

  /**
    The match of open.*?,.*?close at p spelled out on the characters: the
    opener at p, the first comma after it at a, the first closer after that
    comma at e - 1, and no line break before that closer.
  */
  predicate LazyMatch(s: string, p: nat, a: nat, e: nat, open: char, close: char)
  {
    p < a && a + 1 < e <= |s|
    && s[p] == open && s[a] == ',' && s[e - 1] == close
    && (forall k :: p < k < a ==> s[k] != ',' && s[k] != '\n')
    && (forall k :: a < k < e - 1 ==> s[k] != close && s[k] != '\n')
  }

  /** The lazy scan stops at the first c when no c and no line break come before it. */
  lemma ScanFirst(s: string, from: nat, c: char, a: nat)
    requires c != '\n' && from <= a < |s| && s[a] == c
    requires forall k :: from <= k < a ==> s[k] != c && s[k] != '\n'
    ensures Scan(s, from, c) == Some(a)
  {
  }

  /**
    GroupMatch is the lazy match: it ends at e exactly when LazyMatch holds
    for some comma a, and None says that no lazy match starts at p.
  */
  lemma GroupMatchIsLazy(s: string, p: nat, open: char, close: char)
    requires p < |s| && close != '\n'
    ensures forall a: nat, e: nat :: LazyMatch(s, p, a, e, open, close) ==> GroupMatch(s, p, open, close) == Some(e)
    ensures GroupMatch(s, p, open, close).Some? ==>
      exists a: nat :: LazyMatch(s, p, a, GroupMatch(s, p, open, close).value, open, close)
  {
    forall a: nat, e: nat | LazyMatch(s, p, a, e, open, close)
      ensures GroupMatch(s, p, open, close) == Some(e)
    {
      LazyMatchFound(s, p, a, e, open, close);
    }
    if GroupMatch(s, p, open, close).Some? {
      GroupMatchWitness(s, p, open, close);
    }
  }

  lemma LazyMatchFound(s: string, p: nat, a: nat, e: nat, open: char, close: char)
    requires p < |s| && close != '\n' && LazyMatch(s, p, a, e, open, close)
    ensures GroupMatch(s, p, open, close) == Some(e)
  {
    ScanFirst(s, p + 1, ',', a);
    ScanFirst(s, a + 1, close, e - 1);
  }

  lemma GroupMatchWitness(s: string, p: nat, open: char, close: char)
    requires p < |s| && close != '\n' && GroupMatch(s, p, open, close).Some?
    ensures Scan(s, p + 1, ',').Some?
    ensures LazyMatch(s, p, Scan(s, p + 1, ',').value, GroupMatch(s, p, open, close).value, open, close)
  {
  }

  /** A group text as the two patterns capture it. */
  predicate IsGroup(g: string, open: char, close: char)
  {
    |g| >= 3 && g[0] == open && g[|g| - 1] == close && ',' in g[1..|g| - 1]
  }

  /** re.findall of open.*?,.*?close on s from index p: the non-overlapping matches, left to right. */
  function FindAll(s: string, open: char, close: char, p: nat): (ms: seq<string>)
    requires close != '\n'
    ensures forall i :: 0 <= i < |ms| ==> IsGroup(ms[i], open, close)
    decreases |s| - p
  {
    if p >= |s| then []
    else
      var m := GroupMatch(s, p, open, close);
      if m.None? then FindAll(s, open, close, p + 1)
      else
        var e := m.value;
        var g := s[p..e];
        SliceInner(s, p, e);
        [g] + FindAll(s, open, close, e)
  }

  /**
    re.findall misses no group: from p it skips the indices where no match
    starts, and the first match, at q, is the first group found.
  */
  lemma {:induction false} FindAllSkip(s: string, open: char, close: char, p: nat, q: nat)
    requires close != '\n' && p <= q < |s|
    requires forall k :: p <= k < q ==> GroupMatch(s, k, open, close).None?
    requires GroupMatch(s, q, open, close).Some?
    ensures FindAll(s, open, close, p)
         == [s[q..GroupMatch(s, q, open, close).value]] + FindAll(s, open, close, GroupMatch(s, q, open, close).value)
    decreases q - p
  {
    if p < q {
      FindAllSkip(s, open, close, p + 1, q);
    }
  }

  /** re.findall finds nothing when no match starts at or after p. */
  lemma {:induction false} FindAllNone(s: string, open: char, close: char, p: nat)
    requires close != '\n'
    requires forall k :: p <= k < |s| ==> GroupMatch(s, k, open, close).None?
    ensures FindAll(s, open, close, p) == []
    decreases |s| - p
  {
    if p < |s| {
      FindAllNone(s, open, close, p + 1);
    }
  }

  /** The slice s[p..e] with its two ends cut off, and those two ends. */
  lemma SliceInner(s: string, p: nat, e: nat)
    requires p + 2 <= e <= |s|
    ensures s[p..e][1..e - p - 1] == s[p + 1..e - 1]
    ensures s[p..e][0] == s[p] && s[p..e][e - p - 1] == s[e - 1]
  {
    var g, inner := s[p..e], s[p + 1..e - 1];
    assert |g[1..e - p - 1]| == |inner|;
    forall k | 0 <= k < |inner|
      ensures g[1..e - p - 1][k] == inner[k]
    {
      assert g[1..e - p - 1][k] == g[k + 1] == s[p + k + 1] == inner[k];
    }
  }

  /** The {..,..} groups of a line, then its (..,..) groups. */
  function SubEntries(line: string): (gs: seq<string>)
    ensures forall i :: 0 <= i < |gs| ==> gs[i] != "" && ',' in gs[i]
  {
    var gs := FindAll(line, '{', '}', 0) + FindAll(line, '(', ')', 0);
    assert forall i :: 0 <= i < |gs| ==> IsGroup(gs[i], '{', '}') || IsGroup(gs[i], '(', ')');
    gs
  }

  /** Every comma of s turned into a semicolon. */
  function EscapeCommas(s: string): (r: string)
    ensures |r| == |s| && ',' !in r
    ensures forall i :: 0 <= i < |s| ==> r[i] == (if s[i] == ',' then ';' else s[i])
  {
    if s == "" then "" else [if s[0] == ',' then ';' else s[0]] + EscapeCommas(s[1..])
  }

  /** The loop of make_accent_entry: each group in turn replaced by its escaped form. */
  function EscapeAll(line: string, gs: seq<string>): string
    requires forall i :: 0 <= i < |gs| ==> gs[i] != ""
  {
    if gs == [] then line
    else
      var k := |gs| - 1;
      ReplaceAll(EscapeAll(line, gs[..k]), gs[k], EscapeCommas(gs[k]))
  }

  /** The line make_accent_entry splits: stripped, with its groups escaped. */
  function Escaped(line: string): string
  {
    var t := Strip(line);
    EscapeAll(t, SubEntries(t))
  }

  /** make_accent_entry(line), None when the record constructor rejects the field count. */
  function ParseEntry(line: string): Option<AccentEntry>
  {
    var fs := SplitOn(Escaped(line), ',');
    if |fs| == FieldCount then Some(EntryOf(fs)) else None
  }

  /** make_accent_entry as the source writes it, with a loop over the groups. */
  method MakeAccentEntry(line: string) returns (r: Option<AccentEntry>)
    ensures r == ParseEntry(line)
  {
    var csvLine := Strip(line);
    var subEntries := SubEntries(csvLine);
    ghost var stripped := csvLine;
    for k := 0 to |subEntries|
      invariant csvLine == EscapeAll(stripped, subEntries[..k])
    {
      var s := subEntries[k];
      assert subEntries[..k + 1][..k] == subEntries[..k];
      csvLine := ReplaceAll(csvLine, s, EscapeCommas(s));
    }
    assert subEntries[..|subEntries|] == subEntries;
    var fields := SplitOn(csvLine, ',');
    if |fields| == FieldCount {
      return Some(EntryOf(fields));
    }
    return None;
  }

  /**
    A line yields an entry exactly when its escaped form has 18 commas, and
    the entry's fields are then the comma-separated pieces of that form.
  */
  lemma ParseEntryFields(line: string)
    ensures ParseEntry(line).Some? <==> multiset(Escaped(line))[','] == FieldCount - 1
    ensures ParseEntry(line).Some? ==> Fields(ParseEntry(line).value) == SplitOn(Escaped(line), ',')
  {
    SplitOnCount(Escaped(line), ',');
  }

  /**
    A group g that occurs once in a + g + b: replacing it by its escaped form
    rewrites it in place, and the escaped group lies inside a single field,
    the one that joins the last field of a to the first field of b.
  */
  lemma EscapeOneGroup(a: string, g: string, b: string)
    requires g != ""
    requires forall j :: 0 <= j < |a| ==> !OccursAt(a + g + b, g, j)
    requires forall j :: 0 <= j <= |b| ==> !OccursAt(b, g, j)
    ensures ReplaceAll(a + g + b, g, EscapeCommas(g)) == a + EscapeCommas(g) + b
    ensures SplitOn(a + EscapeCommas(g) + b, ',') == Glue(SplitOn(a, ','), EscapeCommas(g), SplitOn(b, ','))
  {
    var s, e := a + g + b, EscapeCommas(g);
    assert OccursAt(s, g, |a|) by {
      assert s[|a|..|a| + |g|] == g;
    }
    ReplaceAllFirst(s, g, e, |a|);
    assert s[..|a|] == a;
    assert s[|a| + |g|..] == b;
    ReplaceAllNone(b, g, e);
    SplitOnAround(a, e, b, ',');
  }

  // ---------------------------------------------------------------------
  // A line holding one group
  // ---------------------------------------------------------------------

  /** A character of a plain field: no whitespace, no comma, no bracket of a group. */
  predicate PlainChar(c: char)
  {
    !IsSpace(c) && c != ',' && c != '(' && c != ')' && c != '{' && c != '}'
  }

  predicate PlainField(f: string)
  {
    forall i :: 0 <= i < |f| ==> PlainChar(f[i])
  }

  /** Plain fields and the commas between them. */
  predicate PlainText(s: string)
  {
    forall i :: 0 <= i < |s| ==> PlainChar(s[i]) || s[i] == ','
  }

  /** The two bracket pairs whose groups make_accent_entry escapes. */
  predicate GroupBrackets(open: char, close: char)
  {
    (open == '(' && close == ')') || (open == '{' && close == '}')
  }

  /** The group open x,y close, as it stands in a corpus line. */
  function Group(open: char, x: string, y: string, close: char): string
  {
    [open] + x + "," + y + [close]
  }

  /** The same group with its comma escaped. */
  function EscapedGroup(open: char, x: string, y: string, close: char): string
  {
    [open] + x + ";" + y + [close]
  }

  /**
    make_accent_entry on a line of 19 fields, one of which is a (x,y) or
    {x,y} group and the others plain: the group's comma becomes ';' and the
    group is a single field of the entry, in its place.
  */
  lemma ParseEntryWithGroup(pre: seq<string>, post: seq<string>, open: char, close: char, x: string, y: string)
    requires GroupBrackets(open, close)
    requires |pre| + |post| == FieldCount - 1
    requires forall i :: 0 <= i < |pre| ==> PlainField(pre[i])
    requires forall i :: 0 <= i < |post| ==> PlainField(post[i])
    requires PlainField(x) && PlainField(y)
    ensures ParseEntry(Join(pre + [Group(open, x, y, close)] + post, ","))
         == Some(EntryOf(pre + [EscapedGroup(open, x, y, close)] + post))
  {
    var g, e := Group(open, x, y, close), EscapedGroup(open, x, y, close);
    var a, b := JoinBefore(pre, ","), JoinAfter(post, ",");
    var fs := pre + [e] + post;
    JoinAround(pre, g, post, ",");
    JoinAround(pre, e, post, ",");
    PlainBefore(pre);
    PlainAfter(post);
    EscapedGroupLine(a, b, open, close, x, y);
    FieldsCommaFree(pre, post, open, close, x, y);
    SplitOnOfJoin(fs, ',');
    assert SplitOn(Escaped(Join(pre + [g] + post, ",")), ',') == fs;
  }

  /** The line make_accent_entry splits, for a line with one group: the group escaped in place. */
  lemma EscapedGroupLine(a: string, b: string, open: char, close: char, x: string, y: string)
    requires GroupBrackets(open, close) && PlainText(a) && PlainText(b) && PlainField(x) && PlainField(y)
    ensures Escaped(a + Group(open, x, y, close) + b) == a + EscapedGroup(open, x, y, close) + b
  {
    var g := Group(open, x, y, close);
    var line := a + g + b;
    GroupLineStripped(a, b, open, close, x, y);
    SubEntriesOfGroupLine(a, b, open, close, x, y);
    ReplaceGroup(a, b, open, close, x, y);
    assert [g][..0] == [];
    assert EscapeAll(line, [g]) == ReplaceAll(line, g, EscapeCommas(g));
  }

  /** The characters of a group, position by position. */
  lemma GroupChars(open: char, x: string, y: string, close: char)
    ensures var g := Group(open, x, y, close);
      |g| == |x| + |y| + 3 && g[0] == open && g[|x| + 1] == ',' && g[|g| - 1] == close
      && (forall i :: 0 <= i < |x| ==> g[i + 1] == x[i])
      && (forall i :: 0 <= i < |y| ==> g[|x| + 2 + i] == y[i])
  {
  }

  lemma {:induction false} PlainJoin(ss: seq<string>)
    requires forall i :: 0 <= i < |ss| ==> PlainField(ss[i])
    ensures PlainText(Join(ss, ","))
    decreases |ss|
  {
    if |ss| >= 2 {
      PlainJoin(ss[1..]);
      assert Join(ss, ",") == ss[0] + "," + Join(ss[1..], ",");
    }
  }

  lemma PlainBefore(pre: seq<string>)
    requires forall i :: 0 <= i < |pre| ==> PlainField(pre[i])
    ensures PlainText(JoinBefore(pre, ","))
  {
    PlainJoin(pre);
  }

  lemma PlainAfter(post: seq<string>)
    requires forall i :: 0 <= i < |post| ==> PlainField(post[i])
    ensures PlainText(JoinAfter(post, ","))
  {
    PlainJoin(post);
  }

  /** A line with no whitespace at its two ends is its own strip. */
  lemma StripKeeps(s: string)
    requires s != "" && !IsSpace(s[0]) && !IsSpace(s[|s| - 1])
    ensures Strip(s) == s
  {
  }

  lemma GroupLineStripped(a: string, b: string, open: char, close: char, x: string, y: string)
    requires GroupBrackets(open, close) && PlainText(a) && PlainText(b)
    ensures Strip(a + Group(open, x, y, close) + b) == a + Group(open, x, y, close) + b
  {
    var line := a + Group(open, x, y, close) + b;
    GroupChars(open, x, y, close);
    assert line[0] == if a == "" then open else a[0];
    assert line[|line| - 1] == if b == "" then close else b[|b| - 1];
    StripKeeps(line);
  }

  /** In a line with one group, findall finds that group for its brackets and none for the others. */
  lemma SubEntriesOfGroupLine(a: string, b: string, open: char, close: char, x: string, y: string)
    requires GroupBrackets(open, close) && PlainText(a) && PlainText(b) && PlainField(x) && PlainField(y)
    ensures SubEntries(a + Group(open, x, y, close) + b) == [Group(open, x, y, close)]
  {
    var other, otherClose := if open == '(' then '{' else '(', if open == '(' then '}' else ')';
    FindAllGroupLine(a, b, open, close, x, y);
    FindAllOtherLine(a, b, open, close, x, y, other, otherClose);
  }

  lemma FindAllGroupLine(a: string, b: string, open: char, close: char, x: string, y: string)
    requires GroupBrackets(open, close) && PlainText(a) && PlainText(b) && PlainField(x) && PlainField(y)
    ensures FindAll(a + Group(open, x, y, close) + b, open, close, 0) == [Group(open, x, y, close)]
  {
    var g := Group(open, x, y, close);
    var line := a + g + b;
    var end := |a| + |g|;
    GroupChars(open, x, y, close);
    forall k | 0 <= k < |a|
      ensures GroupMatch(line, k, open, close).None?
    {
      assert line[k] == a[k];
    }
    GroupMatchAt(a, b, open, close, x, y);
    forall k | end <= k < |line|
      ensures GroupMatch(line, k, open, close).None?
    {
      assert line[k] == b[k - end];
    }
    FindAllNone(line, open, close, end);
    FindAllSkip(line, open, close, 0, |a|);
    assert line[|a|..end] == g;
  }

  /** The group of the line is the lazy match at its opener. */
  lemma GroupMatchAt(a: string, b: string, open: char, close: char, x: string, y: string)
    requires GroupBrackets(open, close) && PlainField(x) && PlainField(y)
    ensures |a| < |a + Group(open, x, y, close) + b|
    ensures GroupMatch(a + Group(open, x, y, close) + b, |a|, open, close) == Some(|a| + |Group(open, x, y, close)|)
  {
    var g := Group(open, x, y, close);
    var line := a + g + b;
    GroupChars(open, x, y, close);
    assert forall k :: |a| <= k < |a| + |g| ==> line[k] == g[k - |a|];
    assert LazyMatch(line, |a|, |a| + |x| + 1, |a| + |g|, open, close);
    LazyMatchFound(line, |a|, |a| + |x| + 1, |a| + |g|, open, close);
  }

  lemma FindAllOtherLine(a: string, b: string, open: char, close: char, x: string, y: string,
                         other: char, otherClose: char)
    requires GroupBrackets(open, close) && PlainText(a) && PlainText(b) && PlainField(x) && PlainField(y)
    requires GroupBrackets(other, otherClose) && other != open
    ensures FindAll(a + Group(open, x, y, close) + b, other, otherClose, 0) == []
  {
    var line := a + Group(open, x, y, close) + b;
    OpenerAbsent(a, b, open, close, x, y, other);
    forall k | 0 <= k < |line|
      ensures GroupMatch(line, k, other, otherClose).None?
    {
      assert line[k] != other;
    }
    FindAllNone(line, other, otherClose, 0);
  }

  /** The other kind of opener occurs nowhere in a line with one group. */
  lemma OpenerAbsent(a: string, b: string, open: char, close: char, x: string, y: string, other: char)
    requires GroupBrackets(open, close) && PlainText(a) && PlainText(b) && PlainField(x) && PlainField(y)
    requires (other == '(' || other == '{') && other != open
    ensures forall k :: 0 <= k < |a + Group(open, x, y, close) + b| ==> (a + Group(open, x, y, close) + b)[k] != other
  {
    var g := Group(open, x, y, close);
    var line := a + g + b;
    GroupChars(open, x, y, close);
    forall k | 0 <= k < |line|
      ensures line[k] != other
    {
      if k < |a| {
        assert line[k] == a[k];
      } else if k < |a| + |g| {
        assert line[k] == g[k - |a|];
      } else {
        assert line[k] == b[k - |a| - |g|];
      }
    }
  }

  /** The group occurs once in its line, and str.replace escapes it in place. */
  lemma ReplaceGroup(a: string, b: string, open: char, close: char, x: string, y: string)
    requires GroupBrackets(open, close) && PlainText(a) && PlainText(b) && PlainField(x) && PlainField(y)
    ensures ReplaceAll(a + Group(open, x, y, close) + b, Group(open, x, y, close),
                       EscapeCommas(Group(open, x, y, close)))
         == a + EscapedGroup(open, x, y, close) + b
  {
    var g := Group(open, x, y, close);
    GroupChars(open, x, y, close);
    forall j | 0 <= j < |a|
      ensures !OccursAt(a + g + b, g, j)
    {
      assert (a + g + b)[j] == a[j];
    }
    forall j | 0 <= j <= |b|
      ensures !OccursAt(b, g, j)
    {
    }
    EscapeOneGroup(a, g, b);
    EscapeGroupText(open, close, x, y);
  }

  /** Escaping a group turns exactly its one comma into ';'. */
  lemma EscapeGroupText(open: char, close: char, x: string, y: string)
    requires GroupBrackets(open, close) && PlainField(x) && PlainField(y)
    ensures EscapeCommas(Group(open, x, y, close)) == EscapedGroup(open, x, y, close)
  {
    var g, e := Group(open, x, y, close), EscapedGroup(open, x, y, close);
    GroupChars(open, x, y, close);
    assert |e| == |g|;
    forall i | 0 <= i < |g|
      ensures EscapeCommas(g)[i] == e[i]
    {
      if i == 0 || i == |x| + 1 || i == |g| - 1 {
      } else if i <= |x| {
        assert e[i] == x[i - 1];
      } else {
        assert e[i] == y[i - |x| - 2];
        assert g[i] == y[i - |x| - 2];
      }
    }
  }

  /** No field of the escaped line holds a comma. */
  lemma FieldsCommaFree(pre: seq<string>, post: seq<string>, open: char, close: char, x: string, y: string)
    requires GroupBrackets(open, close) && PlainField(x) && PlainField(y)
    requires forall i :: 0 <= i < |pre| ==> PlainField(pre[i])
    requires forall i :: 0 <= i < |post| ==> PlainField(post[i])
    ensures forall i :: 0 <= i < |pre + [EscapedGroup(open, x, y, close)] + post| ==>
      ',' !in (pre + [EscapedGroup(open, x, y, close)] + post)[i]
  {
    var e := EscapedGroup(open, x, y, close);
    var fs := pre + [e] + post;
    assert ',' !in e by {
      forall i | 0 <= i < |e|
        ensures e[i] != ','
      {
        if 0 < i <= |x| {
          assert e[i] == x[i - 1];
        } else if |x| + 1 < i < |e| - 1 {
          assert e[i] == y[i - |x| - 2];
        }
      }
    }
    forall i | 0 <= i < |fs|
      ensures ',' !in fs[i]
    {
      if i < |pre| {
        assert fs[i] == pre[i];
        PlainNoComma(pre[i]);
      } else if i > |pre| {
        assert fs[i] == post[i - |pre| - 1];
        PlainNoComma(post[i - |pre| - 1]);
      }
    }
  }

  lemma PlainNoComma(f: string)
    requires PlainField(f)
    ensures ',' !in f
  {
  }
}

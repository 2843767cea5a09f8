/**
  The dictionary-building cores of database.py.

  build_database parses every line of the accent corpus into an entry,
  renders each entry and registers the pair (katakana reading, html) under
  both the entry's NHK expression and its kanji expression; then it writes
  one tab-separated row per registered pair, key by key.  read_derivative
  reads such rows back and registers each row's html under both its word
  and its kana.  Both keep, per key, a list without duplicates in
  first-seen order, and a Python dict keeps its keys in insertion order.

  Files are modelled away: the corpus and the derivative file are given as
  sequences of lines, and the written file as the string of its rows.
*/
module AccentDatabase {
  import opened Text
  import opened Accent
  import opened PitchHtml

  /** A dict of lists: its keys in insertion order and the list under each key. */
  datatype Table<V> = Table(keys: seq<string>, lists: map<string, seq<V>>)

  /** The keys are exactly those of the map, each listed once. */
  ghost predicate Valid<V>(t: Table<V>)
  {
    && (forall k :: k in t.lists <==> k in t.keys)
    && (forall i, j :: 0 <= i < j < |t.keys| ==> t.keys[i] != t.keys[j])
  }

  /**
    One registration: the key is added (at the end) when new, and the value
    is appended to its list unless already there.
  */
  function Register<V(==)>(t: Table<V>, key: string, value: V): Table<V>
  {
    var l := if key in t.lists then t.lists[key] else [];
    Table(if key in t.lists then t.keys else t.keys + [key],
          t.lists[key := if value in l then l else l + [value]])
  }

  /** The table after registering the pairs of regs in order, from an empty dict. */
  function RegisterAll<V(==)>(regs: seq<(string, V)>): Table<V>
    decreases |regs|
  {
    if regs == [] then Table([], map[])
    else
      var last := regs[|regs| - 1];
      Register(RegisterAll(regs[..|regs| - 1]), last.0, last.1)
  }

  lemma RegisterAllSnoc<V>(regs: seq<(string, V)>, x: (string, V))
    ensures RegisterAll(regs + [x]) == Register(RegisterAll(regs), x.0, x.1)
  {
    assert (regs + [x])[..|regs|] == regs;
  }

  lemma RegisterAllTwo<V>(regs: seq<(string, V)>, a: (string, V), b: (string, V))
    ensures RegisterAll(regs + [a, b]) == Register(Register(RegisterAll(regs), a.0, a.1), b.0, b.1)
  {
    RegisterAllSnoc(regs, a);
    assert regs + [a, b] == (regs + [a]) + [b];
    RegisterAllSnoc(regs + [a], b);
  }

  /** The keys of regs, in order and with repetitions. */
  function KeysOf<V>(regs: seq<(string, V)>): seq<string>
    decreases |regs|
  {
    if regs == [] then [] else KeysOf(regs[..|regs| - 1]) + [regs[|regs| - 1].0]
  }

  /** The values registered under key, in order and with repetitions. */
  function ValuesFor<V>(regs: seq<(string, V)>, key: string): seq<V>
    decreases |regs|
  {
    if regs == [] then []
    else
      var last := regs[|regs| - 1];
      ValuesFor(regs[..|regs| - 1], key) + (if last.0 == key then [last.1] else [])
  }

  /**
    Registering pairs in order builds the table whose keys are the
    registered keys without repetitions, in first-seen order, and whose list
    under each key is the values registered under it without repetitions,
    in first-seen order.
  */
  lemma {:induction false} RegisterAllSpec<V>(regs: seq<(string, V)>)
    ensures Valid(RegisterAll(regs))
    ensures RegisterAll(regs).keys == Dedup(KeysOf(regs))
    ensures forall k :: k in RegisterAll(regs).lists ==> RegisterAll(regs).lists[k] == Dedup(ValuesFor(regs, k))
    ensures forall k :: k !in RegisterAll(regs).lists ==> ValuesFor(regs, k) == []
    decreases |regs|
  {
    if regs != [] {
      var p := regs[..|regs| - 1];
      var last := regs[|regs| - 1];
      assert regs == p + [last];
      RegisterAllSpec(p);
      RegisterStep(RegisterAll(p), p, last.0, last.1);
    }
  }

  /** One registration keeps the correspondence between a table and the pairs registered into it. */
  lemma RegisterStep<V>(t: Table<V>, p: seq<(string, V)>, key: string, value: V)
    requires Valid(t) && t.keys == Dedup(KeysOf(p))
    requires forall k :: k in t.lists ==> t.lists[k] == Dedup(ValuesFor(p, k))
    requires forall k :: k !in t.lists ==> ValuesFor(p, k) == []
    ensures Valid(Register(t, key, value))
    ensures Register(t, key, value).keys == Dedup(KeysOf(p + [(key, value)]))
    ensures forall k :: k in Register(t, key, value).lists ==>
      Register(t, key, value).lists[k] == Dedup(ValuesFor(p + [(key, value)], k))
    ensures forall k :: k !in Register(t, key, value).lists ==> ValuesFor(p + [(key, value)], k) == []
  {
    RegisterKeys(t, p, key, value);
    forall k
      ensures k in Register(t, key, value).lists ==>
        Register(t, key, value).lists[k] == Dedup(ValuesFor(p + [(key, value)], k))
      ensures k !in Register(t, key, value).lists ==> ValuesFor(p + [(key, value)], k) == []
    {
      RegisterAt(t, p, key, value, k);
    }
  }

  /** The list under one key k after one registration. */
  lemma RegisterAt<V>(t: Table<V>, p: seq<(string, V)>, key: string, value: V, k: string)
    requires k in t.lists ==> t.lists[k] == Dedup(ValuesFor(p, k))
    requires k !in t.lists ==> ValuesFor(p, k) == []
    ensures k in Register(t, key, value).lists ==>
      Register(t, key, value).lists[k] == Dedup(ValuesFor(p + [(key, value)], k))
    ensures k !in Register(t, key, value).lists ==> ValuesFor(p + [(key, value)], k) == []
  {
    var regs := p + [(key, value)];
    assert regs[..|regs| - 1] == p;
    if k == key {
      DedupSnoc(ValuesFor(p, key), value);
      assert ValuesFor(regs, k) == ValuesFor(p, k) + [value];
    } else {
      assert ValuesFor(regs, k) == ValuesFor(p, k) + [];
      assert ValuesFor(p, k) + [] == ValuesFor(p, k);
      var r := Register(t, key, value);
      assert (k in r.lists <==> k in t.lists) && (k in r.lists ==> r.lists[k] == t.lists[k]);
    }
  }

  /** The keys part of RegisterStep. */
  lemma RegisterKeys<V>(t: Table<V>, p: seq<(string, V)>, key: string, value: V)
    requires Valid(t) && t.keys == Dedup(KeysOf(p))
    ensures Valid(Register(t, key, value))
    ensures Register(t, key, value).keys == Dedup(KeysOf(p + [(key, value)]))
  {
    var regs := p + [(key, value)];
    assert regs[..|regs| - 1] == p;
    assert KeysOf(regs) == KeysOf(p) + [key];
    DedupSnoc(KeysOf(p), key);
  }

  /** Dedup of a sequence with one more element at the end. */
  lemma DedupSnoc<T>(s: seq<T>, x: T)
    ensures Dedup(s + [x]) == if x in Dedup(s) then Dedup(s) else Dedup(s) + [x]
  {
    assert (s + [x])[..|s|] == s;
  }

  /** Each list of a registered table holds distinct values, each registered under its key, in first-seen order. */
  lemma RegisterAllLists<V>(regs: seq<(string, V)>, k: string)
    requires k in RegisterAll(regs).lists
    ensures var l := RegisterAll(regs).lists[k];
      && (forall i, j :: 0 <= i < j < |l| ==> l[i] != l[j])
      && (forall v :: v in l <==> v in ValuesFor(regs, k))
      && (forall i, j :: 0 <= i < j < |l| ==> FirstIndex(ValuesFor(regs, k), l[i]) < FirstIndex(ValuesFor(regs, k), l[j]))
  {
    RegisterAllSpec(regs);
    DedupSpec(ValuesFor(regs, k));
    var vs := ValuesFor(regs, k);
    forall v | v in vs ensures v in Dedup(vs) {
      var i :| 0 <= i < |vs| && vs[i] == v;
    }
  }

  // ---------------------------------------------------------------------
  // build_database
  // ---------------------------------------------------------------------

  /**
    Every line of the file read into an entry, in file order, where parse
    reads one line (ParseEntry, see BuildTableOf): None when some line does
    not parse.
  */
  function EntriesOf(lines: seq<string>, parse: string -> Option<AccentEntry>): Option<seq<AccentEntry>>
    decreases |lines|
  {
    if lines == [] then Some([])
    else
      var before := EntriesOf(lines[..|lines| - 1], parse);
      var e := parse(lines[|lines| - 1]);
      if before.None? || e.None? then None else Some(before.value + [e.value])
  }

  /**
    The registrations of build_database, entry by entry: (nhk, value) then
    (kanjiexpr, value) with value = (katakana reading, html), where render
    gives the html of an entry (format_entry, see BuildTableOf).  None when
    some entry cannot be rendered.
  */
  function Registrations(entries: seq<AccentEntry>, render: AccentEntry -> Option<string>): Option<seq<(string, (string, string))>>
    decreases |entries|
  {
    if entries == [] then Some([])
    else
      var before := Registrations(entries[..|entries| - 1], render);
      var e := entries[|entries| - 1];
      var html := render(e);
      if before.None? || html.None? then None
      else
        var value := (e.katakanaReading, html.value);
        Some(before.value + [(e.nhk, value), (e.kanjiExpr, value)])
  }

  /** The dict build_database fills, or None when a line fails to parse or an entry to render. */
  function BuildTableOf(lines: seq<string>): Option<Table<(string, string)>>
  {
    var entries := EntriesOf(lines, ParseEntry);
    if entries.None? then None
    else
      var regs := Registrations(entries.value, FormatEntryOf);
      if regs.None? then None else Some(RegisterAll(regs.value))
  }

  /** One row of the derivative file. */
  function Row(key: string, kana: string, html: string): string
  {
    key + "\t" + kana + "\t" + html + "\n"
  }

  /** The rows for one key, one per pair of its list, in list order. */
  function KeyRows(key: string, vs: seq<(string, string)>): string
    decreases |vs|
  {
    if vs == [] then "" else KeyRows(key, vs[..|vs| - 1]) + Row(key, vs[|vs| - 1].0, vs[|vs| - 1].1)
  }

  /** The list under key, [] for a key of no list. */
  function ListOf<V>(t: Table<V>, key: string): seq<V>
  {
    if key in t.lists then t.lists[key] else []
  }

  /** The rows for the first n keys of t, in key insertion order. */
  function Rows(t: Table<(string, string)>, n: nat): string
    requires n <= |t.keys|
  {
    if n == 0 then "" else Rows(t, n - 1) + KeyRows(t.keys[n - 1], ListOf(t, t.keys[n - 1]))
  }

  /** The text of the derivative file written for t. */
  function Output(t: Table<(string, string)>): string
  {
    Rows(t, |t.keys|)
  }

  /** The derivative file build_database writes, or None when it raises before writing. */
  function BuildDatabaseOf(lines: seq<string>): Option<string>
  {
    var t := BuildTableOf(lines);
    if t.None? then None else Some(Output(t.value))
  }

  /** A line that fails to parse makes every longer list of lines fail. */
  lemma {:induction false} EntriesOfSticky(lines: seq<string>, parse: string -> Option<AccentEntry>, n: nat)
    requires n <= |lines| && EntriesOf(lines[..n], parse).None?
    ensures EntriesOf(lines, parse).None?
    decreases |lines| - n
  {
    if n < |lines| {
      assert lines[..n + 1][..n] == lines[..n];
      EntriesOfSticky(lines, parse, n + 1);
    } else {
      assert lines[..n] == lines;
    }
  }

  /** An entry that fails to render makes every longer list of entries fail. */
  lemma {:induction false} RegistrationsSticky(entries: seq<AccentEntry>, render: AccentEntry -> Option<string>, n: nat)
    requires n <= |entries| && Registrations(entries[..n], render).None?
    ensures Registrations(entries, render).None?
    decreases |entries| - n
  {
    if n < |entries| {
      assert entries[..n + 1][..n] == entries[..n];
      RegistrationsSticky(entries, render, n + 1);
    } else {
      assert entries[..n] == entries;
    }
  }

  /** Registrations succeed exactly when every entry renders. */
  lemma {:induction false} RegistrationsSucceed(entries: seq<AccentEntry>, render: AccentEntry -> Option<string>)
    ensures Registrations(entries, render).Some? <==> forall i :: 0 <= i < |entries| ==> render(entries[i]).Some?
    decreases |entries|
  {
    if entries != [] {
      var p := entries[..|entries| - 1];
      RegistrationsSucceed(p, render);
      assert forall i :: 0 <= i < |p| ==> p[i] == entries[i];
    }
  }

  /**
    build_database registers, for entry i, its pair (katakana reading, html)
    under its NHK expression at 2 * i and under its kanji expression at
    2 * i + 1.
  */
  lemma {:induction false} RegistrationsLayout(entries: seq<AccentEntry>, render: AccentEntry -> Option<string>)
    requires Registrations(entries, render).Some?
    ensures |Registrations(entries, render).value| == 2 * |entries|
    ensures forall i :: 0 <= i < |entries| ==>
      && render(entries[i]).Some?
      && Registrations(entries, render).value[2 * i] == (entries[i].nhk, (entries[i].katakanaReading, render(entries[i]).value))
      && Registrations(entries, render).value[2 * i + 1] == (entries[i].kanjiExpr, (entries[i].katakanaReading, render(entries[i]).value))
    decreases |entries|
  {
    if entries != [] {
      var p := entries[..|entries| - 1];
      var e := entries[|entries| - 1];
      RegistrationsLayout(p, render);
      var pr := Registrations(p, render).value;
      var regs := Registrations(entries, render).value;
      var value := (e.katakanaReading, render(e).value);
      assert regs == pr + [(e.nhk, value), (e.kanjiExpr, value)];
      forall i | 0 <= i < |entries|
        ensures && render(entries[i]).Some?
                && regs[2 * i] == (entries[i].nhk, (entries[i].katakanaReading, render(entries[i]).value))
                && regs[2 * i + 1] == (entries[i].kanjiExpr, (entries[i].katakanaReading, render(entries[i]).value))
      {
        if i < |p| {
          assert entries[i] == p[i];
          assert regs[2 * i] == pr[2 * i] && regs[2 * i + 1] == pr[2 * i + 1];
        }
      }
    }
  }

  /**
    build_database without its file I/O: parse every line, then register
    each entry's pair under both expressions, then write the rows key by key.
  */
  method BuildDatabase(lines: seq<string>) returns (r: Option<string>)
    ensures r == BuildDatabaseOf(lines)
  {
    var entries := ParseLines(lines);
    if entries.None? {
      return None;
    }
    var table := Tabulate(entries.value);
    if table.None? {
      return None;
    }
    RegisterAllSpec(Registrations(entries.value, FormatEntryOf).value);
    r := WriteRows(table.value.keys, table.value.lists);
  }

  /** Reads every line of the file into an entry, stopping at the first line that does not parse. */
  method ParseLines(lines: seq<string>) returns (r: Option<seq<AccentEntry>>)
    ensures r == EntriesOf(lines, ParseEntry)
  {
    var entries: seq<AccentEntry> := [];
    for i := 0 to |lines|
      invariant EntriesOf(lines[..i], ParseEntry) == Some(entries)
    {
      var e := MakeAccentEntry(lines[i]);
      EntriesStep(lines, ParseEntry, i, entries);
      if e.None? {
        EntriesOfSticky(lines, ParseEntry, i + 1);
        return None;
      }
      entries := entries + [e.value];
    }
    assert lines[..|lines|] == lines;
    return Some(entries);
  }

  /** One more line: its entry follows those of the lines before it, or parsing fails. */
  lemma EntriesStep(lines: seq<string>, parse: string -> Option<AccentEntry>, i: nat, entries: seq<AccentEntry>)
    requires i < |lines| && EntriesOf(lines[..i], parse) == Some(entries)
    ensures parse(lines[i]).None? ==> EntriesOf(lines[..i + 1], parse).None?
    ensures parse(lines[i]).Some? ==> EntriesOf(lines[..i + 1], parse) == Some(entries + [parse(lines[i]).value])
  {
    assert lines[..i + 1][..i] == lines[..i];
  }

  /** The registration loop of build_database over the parsed entries. */
  method Tabulate(entries: seq<AccentEntry>) returns (r: Option<Table<(string, string)>>)
    ensures var regs := Registrations(entries, FormatEntryOf);
      r == if regs.None? then None else Some(RegisterAll(regs.value))
  {
    var keys: seq<string> := [];
    var lists: map<string, seq<(string, string)>> := map[];
    ghost var regs: seq<(string, (string, string))> := [];
    for i := 0 to |entries|
      invariant Registrations(entries[..i], FormatEntryOf) == Some(regs)
      invariant Table(keys, lists) == RegisterAll(regs)
    {
      var entry := entries[i];
      var html := FormatEntry(entry);
      assert entries[..i + 1][..i] == entries[..i];
      if html.None? {
        RegistrationsSticky(entries, FormatEntryOf, i + 1);
        return None;
      }
      var value := (entry.katakanaReading, html.value);
      var both := [entry.nhk, entry.kanjiExpr];
      keys, lists := PutBoth(keys, lists, both, value);
      RegisterAllTwo(regs, (entry.nhk, value), (entry.kanjiExpr, value));
      regs := regs + [(entry.nhk, value), (entry.kanjiExpr, value)];
    }
    assert entries[..|entries|] == entries;
    return Some(Table(keys, lists));
  }

  /**
    The body of the registration loops: the list under key, created empty
    when the key is new, gets value appended unless it already holds it.
  */
  method Put<V(==)>(keys: seq<string>, lists: map<string, seq<V>>, key: string, value: V)
    returns (keys': seq<string>, lists': map<string, seq<V>>)
    ensures Table(keys', lists') == Register(Table(keys, lists), key, value)
  {
    keys', lists' := keys, lists;
    var l := if key in lists' then lists'[key] else [];
    if key !in lists' {
      keys' := keys' + [key];
    }
    lists' := lists'[key := l];
    if value !in l {
      lists' := lists'[key := l + [value]];
    }
  }

  /** RegisterEach(t, ks, v): v registered under each key of ks in turn. */
  function RegisterEach<V(==)>(t: Table<V>, ks: seq<string>, value: V): Table<V>
    decreases |ks|
  {
    if ks == [] then t else Register(RegisterEach(t, ks[..|ks| - 1], value), ks[|ks| - 1], value)
  }

  /** Registers value under the first key, then under the second. */
  method PutBoth<V(==)>(keys: seq<string>, lists: map<string, seq<V>>, both: seq<string>, value: V)
    returns (keys': seq<string>, lists': map<string, seq<V>>)
    requires |both| == 2
    ensures Table(keys', lists') == Register(Register(Table(keys, lists), both[0], value), both[1], value)
  {
    keys', lists' := keys, lists;
    for j := 0 to |both|
      invariant Table(keys', lists') == RegisterEach(Table(keys, lists), both[..j], value)
    {
      assert both[..j + 1][..j] == both[..j];
      keys', lists' := Put(keys', lists', both[j], value);
    }
    assert both[..2] == both && both[..1] == [both[0]] && [both[0]][..0] == [];
  }

  /** The writing loop of build_database: one row per pair, key by key in insertion order. */
  method WriteRows(keys: seq<string>, lists: map<string, seq<(string, string)>>) returns (r: Option<string>)
    requires Valid(Table(keys, lists))
    ensures r == Some(Output(Table(keys, lists)))
  {
    ghost var t := Table(keys, lists);
    var out := "";
    for i := 0 to |keys|
      invariant out == Rows(t, i)
    {
      var key := keys[i];
      var vs := lists[key];
      ghost var before := out;
      for j := 0 to |vs|
        invariant out == before + KeyRows(key, vs[..j])
      {
        assert vs[..j + 1][..j] == vs[..j];
        var row := Row(key, vs[j].0, vs[j].1);
        assert before + KeyRows(key, vs[..j]) + row == before + (KeyRows(key, vs[..j]) + row);
        out := out + row;
      }
      assert vs[..|vs|] == vs;
    }
    return Some(out);
  }

  // ---------------------------------------------------------------------
  // read_derivative
  // ---------------------------------------------------------------------

  /** A line without its surrounding whitespace, cut at tabs into word, kana and markup: None unless there are exactly three fields. */
  function ParseRow(line: string): Option<(string, string, string)>
  {
    var fs := SplitOn(Strip(line), '\t');
    if |fs| == 3 then Some((fs[0], fs[1], fs[2])) else None
  }

  /**
    The registrations of read_derivative: each row's html under its word,
    then under its kana, where parse splits a line into its fields (ParseRow,
    see ReadDerivativeOf).  None when some line does not parse.
  */
  function DerivativeRegistrations(lines: seq<string>, parse: string -> Option<(string, string, string)>): Option<seq<(string, string)>>
    decreases |lines|
  {
    if lines == [] then Some([])
    else
      var before := DerivativeRegistrations(lines[..|lines| - 1], parse);
      var row := parse(lines[|lines| - 1]);
      if before.None? || row.None? then None
      else
        var (word, kana, html) := row.value;
        Some(before.value + [(word, html), (kana, html)])
  }

  /** The dict read_derivative returns, or None when a line does not have three fields. */
  function ReadDerivativeOf(lines: seq<string>): Option<Table<string>>
  {
    var regs := DerivativeRegistrations(lines, ParseRow);
    if regs.None? then None else Some(RegisterAll(regs.value))
  }

  lemma {:induction false} DerivativeSticky(lines: seq<string>, parse: string -> Option<(string, string, string)>, n: nat)
    requires n <= |lines| && DerivativeRegistrations(lines[..n], parse).None?
    ensures DerivativeRegistrations(lines, parse).None?
    decreases |lines| - n
  {
    if n < |lines| {
      assert lines[..n + 1][..n] == lines[..n];
      DerivativeSticky(lines, parse, n + 1);
    } else {
      assert lines[..n] == lines;
    }
  }

  /** read_derivative succeeds exactly when every line has three tab-separated fields. */
  lemma {:induction false} DerivativeSucceeds(lines: seq<string>, parse: string -> Option<(string, string, string)>)
    ensures DerivativeRegistrations(lines, parse).Some? <==> forall i :: 0 <= i < |lines| ==> parse(lines[i]).Some?
    decreases |lines|
  {
    if lines != [] {
      var p := lines[..|lines| - 1];
      DerivativeSucceeds(p, parse);
      assert forall i :: 0 <= i < |p| ==> p[i] == lines[i];
    }
  }

  /**
    read_derivative registers, for line i, its html under its word at 2 * i
    and under its kana at 2 * i + 1: the stored values are the html fields.
  */
  lemma {:induction false} DerivativeLayout(lines: seq<string>, parse: string -> Option<(string, string, string)>)
    requires DerivativeRegistrations(lines, parse).Some?
    ensures |DerivativeRegistrations(lines, parse).value| == 2 * |lines|
    ensures forall i :: 0 <= i < |lines| ==>
      && parse(lines[i]).Some?
      && DerivativeRegistrations(lines, parse).value[2 * i] == (parse(lines[i]).value.0, parse(lines[i]).value.2)
      && DerivativeRegistrations(lines, parse).value[2 * i + 1] == (parse(lines[i]).value.1, parse(lines[i]).value.2)
    decreases |lines|
  {
    if lines != [] {
      var p := lines[..|lines| - 1];
      DerivativeLayout(p, parse);
      var pr := DerivativeRegistrations(p, parse).value;
      var regs := DerivativeRegistrations(lines, parse).value;
      var row := parse(lines[|lines| - 1]).value;
      assert regs == pr + [(row.0, row.2), (row.1, row.2)];
      forall i | 0 <= i < |lines|
        ensures && parse(lines[i]).Some?
                && regs[2 * i] == (parse(lines[i]).value.0, parse(lines[i]).value.2)
                && regs[2 * i + 1] == (parse(lines[i]).value.1, parse(lines[i]).value.2)
      {
        if i < |p| {
          assert lines[i] == p[i];
          assert regs[2 * i] == pr[2 * i] && regs[2 * i + 1] == pr[2 * i + 1];
        }
      }
    }
  }

  /** One more line: its registrations follow those of the lines before it, or the read fails. */
  lemma DerivativeStep(lines: seq<string>, parse: string -> Option<(string, string, string)>, i: nat, regs: seq<(string, string)>)
    requires i < |lines| && DerivativeRegistrations(lines[..i], parse) == Some(regs)
    ensures parse(lines[i]).None? ==> DerivativeRegistrations(lines[..i + 1], parse).None?
    ensures parse(lines[i]).Some? ==>
      var (word, kana, html) := parse(lines[i]).value;
      DerivativeRegistrations(lines[..i + 1], parse) == Some(regs + [(word, html), (kana, html)])
  {
    assert lines[..i + 1][..i] == lines[..i];
  }

  /** read_derivative without its file I/O. */
  method ReadDerivative(lines: seq<string>) returns (r: Option<Table<string>>)
    ensures r == ReadDerivativeOf(lines)
  {
    var keys: seq<string> := [];
    var lists: map<string, seq<string>> := map[];
    ghost var regs: seq<(string, string)> := [];
    for i := 0 to |lines|
      invariant DerivativeRegistrations(lines[..i], ParseRow) == Some(regs)
      invariant Table(keys, lists) == RegisterAll(regs)
    {
      var fields := SplitOn(Strip(lines[i]), '\t');
      assert ParseRow(lines[i]) == if |fields| == 3 then Some((fields[0], fields[1], fields[2])) else None;
      DerivativeStep(lines, ParseRow, i, regs);
      if |fields| != 3 {
        DerivativeSticky(lines, ParseRow, i + 1);
        return None;
      }
      var word, kana, pitchHtml := fields[0], fields[1], fields[2];
      var both := [word, kana];
      keys, lists := PutBoth(keys, lists, both, pitchHtml);
      RegisterAllTwo(regs, (word, pitchHtml), (kana, pitchHtml));
      regs := regs + [(word, pitchHtml), (kana, pitchHtml)];
    }
    assert lines[..|lines|] == lines;
    return Some(Table(keys, lists));
  }

  /**
    A row written by build_database reads back as its three fields, provided
    no field holds a tab and stripping the line removes only its newline.
  */
  lemma RowRoundTrip(key: string, kana: string, html: string)
    requires '\t' !in key && '\t' !in kana && '\t' !in html
    requires key != "" && !IsSpace(key[0])
    requires html != "" && !IsSpace(html[|html| - 1])
    ensures ParseRow(Row(key, kana, html)) == Some((key, kana, html))
  {
    StripRow(key, kana, html);
    JoinThree(key, kana, html);
    SplitOnOfJoin([key, kana, html], '\t');
  }

  /** Stripping a row removes its newline and nothing else. */
  lemma StripRow(key: string, kana: string, html: string)
    requires key != "" && !IsSpace(key[0])
    requires html != "" && !IsSpace(html[|html| - 1])
    ensures Strip(Row(key, kana, html)) == key + "\t" + kana + "\t" + html
  {
    var body := key + "\t" + kana + "\t" + html;
    var line := Row(key, kana, html);
    assert line == body + "\n";
    assert line[0] == key[0];
    assert TrimStart(line) == line;
    assert line[|line| - 2] == html[|html| - 1];
  }

  lemma JoinThree(a: string, b: string, c: string)
    ensures Join([a, b, c], ['\t']) == a + "\t" + b + "\t" + c
  {
    assert [a, b, c][1..] == [b, c] && [b, c][1..] == [c];
    assert Join([c], ['\t']) == c;
    assert Join([b, c], ['\t']) == b + "\t" + c;
    assert a + "\t" + (b + "\t" + c) == a + "\t" + b + "\t" + c;
  }
}

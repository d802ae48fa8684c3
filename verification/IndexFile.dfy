/** Index files: sorted entries as text, read back and searched by key. */
module IndexFiles {
  import opened Outcomes
  import opened Bytes
  import opened PageStore
  import opened RecordLayout
  import opened Text

  datatype IndexMeta = IndexMeta(name: string, table: string, column: string)

  datatype IndexEntry = IndexEntry(key: i32, rid: Rid)

  datatype IndexError = DuplicateIndex(name: string) | IndexNotFound(name: string)
    | UnsupportedKeyType | IndexCorrupted | IndexIo

  const INDEX_FILE_HEADER := "rs-redbase-index-v1"

  // ---- sorting by key, page and slot

  predicate EntryLess(a: IndexEntry, b: IndexEntry) {
    a.key < b.key || (a.key == b.key &&
      (a.rid.page < b.rid.page || (a.rid.page == b.rid.page && a.rid.slot < b.rid.slot)))
  }

  predicate EntryLeq(a: IndexEntry, b: IndexEntry) {
    !EntryLess(b, a)
  }

  /** After the last entry that is not greater, so equal entries keep their order. */
  function Place(e: IndexEntry, sorted: seq<IndexEntry>): seq<IndexEntry> {
    if sorted == [] then [e]
    else if EntryLess(e, sorted[0]) then [e] + sorted
    else [sorted[0]] + Place(e, sorted[1..])
  }

  function Sort(entries: seq<IndexEntry>): seq<IndexEntry> {
    if entries == [] then [] else Place(entries[|entries| - 1], Sort(entries[..|entries| - 1]))
  }

  ghost predicate Sorted(entries: seq<IndexEntry>) {
    forall i, j :: 0 <= i < j < |entries| ==> EntryLeq(entries[i], entries[j])
  }

  lemma {:induction false} PlaceMembers(e: IndexEntry, sorted: seq<IndexEntry>)
    ensures multiset(Place(e, sorted)) == multiset(sorted) + multiset{e}
    ensures forall x :: x in Place(e, sorted) <==> x == e || x in sorted
  {
    if sorted == [] {
    } else {
      assert sorted == [sorted[0]] + sorted[1..];
      PlaceMembers(e, sorted[1..]);
    }
  }

  lemma LeqLess(a: IndexEntry, b: IndexEntry)
    ensures EntryLess(a, b) || !EntryLess(b, a) ==> EntryLeq(a, b)
  {
  }

  lemma LeqTransitive(a: IndexEntry, b: IndexEntry, c: IndexEntry)
    requires EntryLeq(a, b) && EntryLeq(b, c)
    ensures EntryLeq(a, c)
  {
  }

  lemma {:induction false} PlaceSorted(e: IndexEntry, sorted: seq<IndexEntry>)
    requires Sorted(sorted)
    ensures Sorted(Place(e, sorted))
  {
    hide EntryLeq;
    if sorted != [] && !EntryLess(e, sorted[0]) {
      var rest := Place(e, sorted[1..]);
      PlaceSorted(e, sorted[1..]);
      PlaceMembers(e, sorted[1..]);
      assert EntryLeq(sorted[0], e) by { LeqLess(sorted[0], e); }
      forall j | 0 <= j < |rest| ensures EntryLeq(sorted[0], rest[j]) {
        assert rest[j] in rest;
      }
    } else if sorted != [] {
      LeqLess(e, sorted[0]);
      forall j | 0 < j < |sorted| ensures EntryLeq(e, sorted[j]) {
        LeqTransitive(e, sorted[0], sorted[j]);
      }
    }
  }

  /** Sorting gives a sorted permutation. */
  lemma {:induction false} SortSpec(entries: seq<IndexEntry>)
    ensures Sorted(Sort(entries)) && multiset(Sort(entries)) == multiset(entries)
  {
    if entries == [] {
    } else {
      var init, last := entries[..|entries| - 1], entries[|entries| - 1];
      SortSpec(init);
      PlaceSorted(last, Sort(init));
      PlaceMembers(last, Sort(init));
      assert entries == init + [last];
    }
  }

  // ---- writing

  function EntryLine(e: IndexEntry): string {
    Join(["entry", PrintInt(e.key), PrintNat(e.rid.page), PrintNat(e.rid.slot)])
  }

  function EntryLines(entries: seq<IndexEntry>): seq<string> {
    seq(|entries|, i requires 0 <= i < |entries| => EntryLine(entries[i]))
  }

  function MetaLines(meta: IndexMeta): seq<string> {
    [INDEX_FILE_HEADER, Join(["name", meta.name]), Join(["table", meta.table]), Join(["column", meta.column]),
      Join(["key_type", "int32"])]
  }

  function Content(meta: IndexMeta, entries: seq<IndexEntry>): string {
    Unlines(MetaLines(meta) + EntryLines(Sort(entries)))
  }

  method WriteIndexFile(meta: IndexMeta, entries: seq<IndexEntry>) returns (content: string)
    ensures content == Content(meta, entries)
  {
    hide Join, PrintInt, PrintNat;
    content := Unlines(MetaLines(meta));
    var sorted := Sort(entries);
    assert MetaLines(meta) + EntryLines(sorted)[..0] == MetaLines(meta);
    for i := 0 to |sorted|
      invariant content == Unlines(MetaLines(meta) + EntryLines(sorted)[..i])
    {
      content := content + EntryLine(sorted[i]) + "\n";
      UnlinesSnoc(MetaLines(meta) + EntryLines(sorted)[..i], EntryLine(sorted[i]));
      assert (MetaLines(meta) + EntryLines(sorted)[..i]) + [EntryLine(sorted[i])] ==
        MetaLines(meta) + EntryLines(sorted)[..i + 1];
    }
    assert EntryLines(sorted)[..|sorted|] == EntryLines(sorted);
  }

  lemma UnlinesSnoc(lines: seq<string>, line: string)
    ensures Unlines(lines + [line]) == Unlines(lines) + line + "\n"
  {
    assert (lines + [line])[..|lines|] == lines;
  }

  // ---- reading

  datatype Loaded = Loaded(name: Option<string>, table: Option<string>, column: Option<string>, keyType: bool,
    entries: seq<IndexEntry>)

  const NOTHING_LOADED := Loaded(None, None, None, false, [])

  function ReadLine(l: Loaded, line: string): Result<Loaded, IndexError> {
    if line == "" then Ok(l)
    else
      var parts := Split(line, '\t');
      if |parts| == 2 && parts[0] == "name" then Ok(l.(name := Some(parts[1])))
      else if |parts| == 2 && parts[0] == "table" then Ok(l.(table := Some(parts[1])))
      else if |parts| == 2 && parts[0] == "column" then Ok(l.(column := Some(parts[1])))
      else if |parts| == 2 && parts[0] == "key_type" && parts[1] == "int32" then Ok(l.(keyType := true))
      else if |parts| == 4 && parts[0] == "entry" then
        (match (ParseI32(parts[1]), ParseU32(parts[2]), ParseU32(parts[3]))
         case (Some(key), Some(page), Some(slot)) => Ok(l.(entries := l.entries + [IndexEntry(key, Rid(page, slot))]))
         case _ => Err(IndexCorrupted))
      else Err(IndexCorrupted)
  }

  function ReadLines(l: Loaded, lines: seq<string>): Result<Loaded, IndexError>
    decreases |lines|
  {
    if lines == [] then Ok(l)
    else
      var t :- ReadLine(l, lines[0]);
      ReadLines(t, lines[1..])
  }

  function LoadSpec(content: string): Result<(IndexMeta, seq<IndexEntry>), IndexError> {
    var lines := Lines(content);
    if lines == [] || lines[0] != INDEX_FILE_HEADER then Err(IndexCorrupted)
    else
      var l :- ReadLines(NOTHING_LOADED, lines[1..]);
      if l.name.Some? && l.table.Some? && l.column.Some? && l.keyType
      then Ok((IndexMeta(l.name.value, l.table.value, l.column.value), l.entries))
      else Err(IndexCorrupted)
  }

  method LoadIndexFile(content: string) returns (r: Result<(IndexMeta, seq<IndexEntry>), IndexError>)
    ensures r == LoadSpec(content)
  {
    hide Split, ReadLine;
    var lines := Lines(content);
    if lines == [] {
      return Err(IndexCorrupted);
    }
    if lines[0] != INDEX_FILE_HEADER {
      return Err(IndexCorrupted);
    }
    var loaded, i := NOTHING_LOADED, 1;
    while i < |lines|
      invariant 1 <= i <= |lines| && ReadLines(NOTHING_LOADED, lines[1..]) == ReadLines(loaded, lines[i..])
    {
      assert lines[i..][1..] == lines[i + 1..];
      loaded :- ReadLine(loaded, lines[i]);
      i := i + 1;
    }
    if loaded.name.None? || loaded.table.None? || loaded.column.None? || !loaded.keyType {
      return Err(IndexCorrupted);
    }
    return Ok((IndexMeta(loaded.name.value, loaded.table.value, loaded.column.value), loaded.entries));
  }

  // ---- the round trip

  ghost predicate PlainMeta(m: IndexMeta) {
    Plain(m.name) && Plain(m.table) && Plain(m.column)
  }

  lemma EntryLineRead(l: Loaded, e: IndexEntry)
    ensures OneLine(EntryLine(e)) && ReadLine(l, EntryLine(e)) == Ok(l.(entries := l.entries + [e]))
  {
    hide PrintNat, PrintInt, ParseI32, ParseU32, Join, Split;
    var parts := ["entry", PrintInt(e.key), PrintNat(e.rid.page), PrintNat(e.rid.slot)];
    PrintPlain(e.key);
    PrintPlain(e.rid.page);
    PrintPlain(e.rid.slot);
    assert Plain("entry");
    JoinSplit(parts);
    I32TextRoundTrip(e.key);
    U32TextRoundTrip(e.rid.page);
    U32TextRoundTrip(e.rid.slot);
    assert EntryLine(e) == Join(parts);
    assert Split("", '\t') == [""] by { EmptySplit(); }
  }

  lemma EmptySplit()
    ensures Split("", '\t') == [""]
  {
  }

  lemma PairLine(a: string, b: string)
    requires Plain(a) && Plain(b)
    ensures OneLine(Join([a, b])) && Split(Join([a, b]), '\t') == [a, b] && Join([a, b]) != ""
  {
    JoinSplit([a, b]);
    EmptySplit();
  }

  lemma {:induction false} EntryLinesRead(l: Loaded, entries: seq<IndexEntry>)
    ensures ReadLines(l, EntryLines(entries)) == Ok(l.(entries := l.entries + entries))
    decreases |entries|
  {
    hide EntryLine, ReadLine;
    if entries == [] {
      assert l.entries + [] == l.entries;
    } else {
      EntryLineRead(l, entries[0]);
      assert EntryLines(entries)[0] == EntryLine(entries[0]);
      assert EntryLines(entries)[1..] == EntryLines(entries[1..]);
      EntryLinesRead(l.(entries := l.entries + [entries[0]]), entries[1..]);
      assert (l.entries + [entries[0]]) + entries[1..] == l.entries + entries;
    }
  }

  lemma ReadCons(l: Loaded, line: string, rest: seq<string>, t: Loaded)
    requires ReadLine(l, line) == Ok(t)
    ensures ReadLines(l, [line] + rest) == ReadLines(t, rest)
  {
    assert ([line] + rest)[1..] == rest;
  }

  lemma MetaRead(m: IndexMeta)
    requires PlainMeta(m)
    ensures forall i :: 0 <= i < |MetaLines(m)| ==> OneLine(MetaLines(m)[i])
    ensures ReadLine(NOTHING_LOADED, Join(["name", m.name])) == Ok(NOTHING_LOADED.(name := Some(m.name)))
    ensures var l := NOTHING_LOADED.(name := Some(m.name));
            ReadLine(l, Join(["table", m.table])) == Ok(l.(table := Some(m.table)))
    ensures var l := NOTHING_LOADED.(name := Some(m.name), table := Some(m.table));
            ReadLine(l, Join(["column", m.column])) == Ok(l.(column := Some(m.column)))
    ensures var l := Loaded(Some(m.name), Some(m.table), Some(m.column), false, []);
            ReadLine(l, Join(["key_type", "int32"])) == Ok(l.(keyType := true))
  {
    hide Join, Split;
    PairLine("name", m.name);
    PairLine("table", m.table);
    PairLine("column", m.column);
    PairLine("key_type", "int32");
    assert OneLine(INDEX_FILE_HEADER);
  }

  lemma MetaLinesRead(m: IndexMeta, tail: seq<string>)
    requires PlainMeta(m)
    ensures ReadLines(NOTHING_LOADED, MetaLines(m)[1..] + tail) ==
            ReadLines(Loaded(Some(m.name), Some(m.table), Some(m.column), true, []), tail)
  {
    hide Join, ReadLine, OneLine, ReadLines;
    MetaRead(m);
    var name, table, column, keyType :=
      Join(["name", m.name]), Join(["table", m.table]), Join(["column", m.column]), Join(["key_type", "int32"]);
    var l1 := NOTHING_LOADED.(name := Some(m.name));
    var l2 := l1.(table := Some(m.table));
    var l3 := Loaded(Some(m.name), Some(m.table), Some(m.column), false, []);
    assert MetaLines(m)[1..] + tail == [name] + ([table] + ([column] + ([keyType] + tail)));
    ReadCons(NOTHING_LOADED, name, [table] + ([column] + ([keyType] + tail)), l1);
    ReadCons(l1, table, [column] + ([keyType] + tail), l2);
    ReadCons(l2, column, [keyType] + tail, l3);
    ReadCons(l3, keyType, tail, l3.(keyType := true));
  }

  lemma ContentLines(m: IndexMeta, entries: seq<IndexEntry>)
    requires PlainMeta(m)
    ensures Lines(Content(m, entries)) == MetaLines(m) + EntryLines(Sort(entries))
  {
    hide EntryLine, Sort, Lines, OneLine, MetaLines;
    var sorted := Sort(entries);
    var lines := MetaLines(m) + EntryLines(sorted);
    MetaRead(m);
    forall i | 0 <= i < |lines| ensures OneLine(lines[i]) {
      if i >= |MetaLines(m)| {
        EntryLineRead(NOTHING_LOADED, sorted[i - |MetaLines(m)|]);
      }
    }
    LinesUnlines(lines);
  }

  /** Loading a written index file gives back the same meta data and the sorted entries. */
  lemma WriteLoadRoundTrip(m: IndexMeta, entries: seq<IndexEntry>)
    requires PlainMeta(m)
    ensures LoadSpec(Content(m, entries)) == Ok((m, Sort(entries)))
  {
    hide EntryLine, Sort, Lines, Join, EntryLines, ReadLines, Content;
    var tail := EntryLines(Sort(entries));
    ContentLines(m, entries);
    MetaLinesRead(m, tail);
    EntryLinesRead(Loaded(Some(m.name), Some(m.table), Some(m.column), true, []), Sort(entries));
    assert (MetaLines(m) + tail)[1..] == MetaLines(m)[1..] + tail;
    assert [] + Sort(entries) == Sort(entries);
  }

  // ---- lookup

  /** Where the entries with key below (or, with `inclusive`, at most) the given one end. */
  function PartitionPoint(entries: seq<IndexEntry>, key: i32, inclusive: bool): (p: nat)
    ensures p <= |entries|
    ensures forall i :: 0 <= i < p ==> entries[i].key < key || (inclusive && entries[i].key == key)
    ensures p < |entries| ==> !(entries[p].key < key || (inclusive && entries[p].key == key))
  {
    if entries != [] && (entries[0].key < key || (inclusive && entries[0].key == key))
    then 1 + PartitionPoint(entries[1..], key, inclusive)
    else 0
  }

  function LookupIn(entries: seq<IndexEntry>, key: i32): seq<Rid> {
    var start, end := PartitionPoint(entries, key, false), PartitionPoint(entries, key, true);
    if start <= end then seq(end - start, i requires 0 <= i < end - start => entries[start + i].rid) else []
  }

  function LookupEq(content: string, key: i32): Result<seq<Rid>, IndexError> {
    var loaded :- LoadSpec(content);
    Ok(LookupIn(loaded.1, key))
  }

  /** On sorted entries the two partition points bound exactly the entries with the key. */
  lemma LookupRange(entries: seq<IndexEntry>, key: i32)
    requires Sorted(entries)
    ensures var start, end := PartitionPoint(entries, key, false), PartitionPoint(entries, key, true);
            start <= end && forall i :: 0 <= i < |entries| ==> (start <= i < end <==> entries[i].key == key)
  {
    var start, end := PartitionPoint(entries, key, false), PartitionPoint(entries, key, true);
    if end < |entries| {
      assert forall i :: end < i < |entries| ==> EntryLeq(entries[end], entries[i]);
    }
    if start < |entries| {
      assert forall i :: start < i < |entries| ==> EntryLeq(entries[start], entries[i]);
    }
  }

  /** A lookup finds exactly the Rids filed under the key. */
  lemma LookupExact(entries: seq<IndexEntry>, key: i32, r: Rid)
    requires Sorted(entries)
    ensures r in LookupIn(entries, key) <==> IndexEntry(key, r) in entries
  {
    hide Sorted, PartitionPoint;
    LookupRange(entries, key);
    var start, rids := PartitionPoint(entries, key, false), LookupIn(entries, key);
    if IndexEntry(key, r) in entries {
      var i :| 0 <= i < |entries| && entries[i] == IndexEntry(key, r);
      assert rids[i - start] == r;
    }
    if r in rids {
      var a :| 0 <= a < |rids| && rids[a] == r;
      assert entries[start + a] == IndexEntry(key, r);
    }
  }

  /** It returns them in page and slot order, each once, if no entry is filed twice. */
  lemma LookupOrdered(entries: seq<IndexEntry>, key: i32)
    requires Sorted(entries) && Distinct(entries)
    ensures var rids := LookupIn(entries, key);
            forall a, b :: 0 <= a < b < |rids| ==> Before(rids[a], rids[b])
  {
    hide PartitionPoint;
    LookupRange(entries, key);
    var start, rids := PartitionPoint(entries, key, false), LookupIn(entries, key);
    forall a, b | 0 <= a < b < |rids| ensures Before(rids[a], rids[b]) {
      assert EntryLeq(entries[start + a], entries[start + b]) && entries[start + a] != entries[start + b];
    }
  }
}

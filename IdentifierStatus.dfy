/** The identifier status file of the pipeline: one line per document
    identifier, `identifier,status` or a bare `identifier` when the status
    is empty. `read_identifier_status` parses it into an insertion-ordered
    dictionary and `update_identifier_status` rewrites it with one entry
    changed. The file is its text, or `None` when it does not exist. */
module IdentifierStatus {
  import opened Wrappers
  import opened Strings

  /** A Python `dict[str, str]`: its keys in insertion order and its
      mapping. */
  datatype Dict = Dict(keys: seq<string>, values: map<string, string>)

  /** Keys are distinct and are exactly the mapped ones. */
  ghost predicate Valid(d: Dict)
  {
    && (forall i, j :: 0 <= i < j < |d.keys| ==> d.keys[i] != d.keys[j])
    && (forall k :: k in d.values <==> k in d.keys)
  }

  const Empty: Dict := Dict([], map[])

  /** `d[k] = v`: an existing key keeps its place, a new one goes last. */
  function Put(d: Dict, k: string, v: string): (r: Dict)
    ensures Valid(d) ==> Valid(r)
  {
    if k in d.values then Dict(d.keys, d.values[k := v]) else Dict(d.keys + [k], d.values[k := v])
  }

  /** After `d[k] = v`, `k` maps to `v`, every other key keeps its value,
      the old keys keep their positions and a new key is appended last. */
  lemma PutMeaning(d: Dict, k: string, v: string)
    requires Valid(d)
    ensures var r := Put(d, k, v);
      && r.values[k] == v
      && (forall k' :: k' != k ==> (k' in r.values <==> k' in d.values))
      && (forall k' :: k' != k && k' in d.values ==> r.values[k'] == d.values[k'])
      && |r.keys| == |d.keys| + (if k in d.values then 0 else 1)
      && (forall i :: 0 <= i < |d.keys| ==> r.keys[i] == d.keys[i])
      && (k !in d.values ==> r.keys[|d.keys|] == k)
  {
  }

  /** One line of the file: `line.strip().split(',')` with two parts gives
      an identifier and its status, with one part an identifier with an
      empty status; any other line is skipped. */
  function ParseLine(line: string): Option<(string, string)>
  {
    var parts := Split(Strip(line), ',');
    if |parts| == 2 then Some((parts[0], parts[1]))
    else if |parts| == 1 then Some((parts[0], ""))
    else None
  }

  /** A stripped line without a comma is an identifier with no status. */
  lemma ParseNoComma(line: string)
    requires ',' !in Strip(line)
    ensures ParseLine(line) == Some((Strip(line), ""))
  {
    SplitNone(Strip(line), ',');
  }

  /** A stripped line with exactly one comma maps the text before it to the
      text after it. */
  lemma ParseOneComma(line: string, id: string, status: string)
    requires Strip(line) == id + "," + status
    requires ',' !in id && ',' !in status
    ensures ParseLine(line) == Some((id, status))
  {
    SplitAfter(id, ',', status);
    SplitNone(status, ',');
  }

  /** A stripped line with two commas or more is skipped. */
  lemma ParseTwoCommas(line: string, a: string, b: string, c: string)
    requires Strip(line) == a + "," + b + "," + c
    requires ',' !in a && ',' !in b
    ensures ParseLine(line) == None
  {
    assert a + "," + b + "," + c == a + [','] + (b + [','] + c);
    SplitAfter(a, ',', b + [','] + c);
    SplitAfter(b, ',', c);
  }

  /** The entry read from each line, in order. */
  function ParseLines(lines: seq<string>): (entries: seq<Option<(string, string)>>)
    ensures |entries| == |lines|
  {
    if lines == [] then [] else ParseLines(lines[..|lines| - 1]) + [ParseLine(lines[|lines| - 1])]
  }

  lemma {:induction false} ParseLinesAt(lines: seq<string>, i: int)
    requires 0 <= i < |lines|
    ensures ParseLines(lines)[i] == ParseLine(lines[i])
  {
    var n := |lines| - 1;
    if i < n {
      ParseLinesAt(lines[..n], i);
    }
  }

  /** The dictionary built from the entries read so far: each entry sets
      its identifier's status, skipped lines change nothing. */
  function Collect(entries: seq<Option<(string, string)>>): (d: Dict)
    ensures Valid(d)
  {
    if entries == [] then Empty
    else
      var d := Collect(entries[..|entries| - 1]);
      match entries[|entries| - 1]
      case None => d
      case Some(entry) => Put(d, entry.0, entry.1)
  }

  /** The dictionary `read_identifier_status` builds from `lines`. */
  function ReadLines(lines: seq<string>): (d: Dict)
    ensures Valid(d)
  {
    Collect(ParseLines(lines))
  }

  /** `read_identifier_status`: the empty dictionary for a missing file. */
  function StatusOf(file: Option<string>): (d: Dict)
    ensures Valid(d)
  {
    match file
    case None => Empty
    case Some(content) => ReadLines(Lines(content))
  }

  /** The entry sets the status of `id`. */
  predicate IsFor(entry: Option<(string, string)>, id: string)
  {
    entry.Some? && entry.value.0 == id
  }

  lemma PutHas(d: Dict, k: string, v: string, id: string)
    ensures id in Put(d, k, v).values <==> id in d.values || id == k
  {
  }

  lemma {:induction false} CollectHas(entries: seq<Option<(string, string)>>, id: string)
    ensures id in Collect(entries).values <==> exists i :: 0 <= i < |entries| && IsFor(entries[i], id)
  {
    if entries != [] {
      var n := |entries| - 1;
      var init := entries[..n];
      CollectHas(init, id);
      var d0 := Collect(init);
      if entries[n].Some? {
        PutHas(d0, entries[n].value.0, entries[n].value.1, id);
      }
      if exists i :: 0 <= i < |entries| && IsFor(entries[i], id) {
        var i :| 0 <= i < |entries| && IsFor(entries[i], id);
        if i < n {
          assert IsFor(init[i], id);
        }
      }
      if exists i :: 0 <= i < n && IsFor(init[i], id) {
        var i :| 0 <= i < n && IsFor(init[i], id);
        assert IsFor(entries[i], id);
      }
    }
  }

  lemma {:induction false} CollectLatest(entries: seq<Option<(string, string)>>, id: string, i: int)
    requires 0 <= i < |entries| && IsFor(entries[i], id)
    requires forall j :: i < j < |entries| ==> !IsFor(entries[j], id)
    ensures id in Collect(entries).values && Collect(entries).values[id] == entries[i].value.1
  {
    var n := |entries| - 1;
    var init := entries[..n];
    if i < n {
      assert init[i] == entries[i];
      assert forall j :: i < j < n ==> init[j] == entries[j];
      CollectLatest(init, id, i);
    }
  }

  lemma CollectMeaning(entries: seq<Option<(string, string)>>, id: string)
    ensures id in Collect(entries).values <==> exists i :: 0 <= i < |entries| && IsFor(entries[i], id)
    ensures forall i :: 0 <= i < |entries| && IsFor(entries[i], id) && (forall j :: i < j < |entries| ==> !IsFor(entries[j], id))
              ==> Collect(entries).values[id] == entries[i].value.1
  {
    CollectHas(entries, id);
    forall i | 0 <= i < |entries| && IsFor(entries[i], id) && (forall j :: i < j < |entries| ==> !IsFor(entries[j], id))
      ensures Collect(entries).values[id] == entries[i].value.1
    {
      CollectLatest(entries, id, i);
    }
  }

  /** An identifier is in the dictionary exactly when some line is read as
      its entry, and its status is the one of the last such line: a later
      duplicate overrides an earlier one. */
  lemma ReadLinesMeaning(lines: seq<string>, id: string)
    ensures id in ReadLines(lines).values <==> exists i :: 0 <= i < |lines| && IsFor(ParseLine(lines[i]), id)
    ensures forall i :: 0 <= i < |lines| && IsFor(ParseLine(lines[i]), id)
                          && (forall j :: i < j < |lines| ==> !IsFor(ParseLine(lines[j]), id))
              ==> ReadLines(lines).values[id] == ParseLine(lines[i]).value.1
  {
    var entries := ParseLines(lines);
    forall i | 0 <= i < |lines|
      ensures entries[i] == ParseLine(lines[i])
    {
      ParseLinesAt(lines, i);
    }
    CollectMeaning(entries, id);
  }

  /** `read_identifier_status`, line by line. */
  method ReadIdentifierStatus(file: Option<string>) returns (d: Dict)
    ensures d == StatusOf(file)
  {
    d := Empty;
    if file.Some? {
      var lines := Lines(file.value);
      ghost var entries := ParseLines(lines);
      for i := 0 to |lines|
        invariant d == Collect(entries[..i])
      {
        assert entries[..i + 1][..i] == entries[..i];
        ParseLinesAt(lines, i);
        var parts := Split(Strip(lines[i]), ',');
        if |parts| == 2 {
          d := Put(d, parts[0], parts[1]);
        } else if |parts| == 1 {
          d := Put(d, parts[0], "");
        }
      }
      assert entries[..|lines|] == entries;
    }
  }

  /** The line written for an entry: `ident,stat`, or the bare `ident` when
      the status is empty. */
  function FormatEntry(id: string, status: string): string
  {
    if status != "" then id + "," + status else id
  }

  /** The written lines of the keys `keys`, in order. */
  function EntryLines(keys: seq<string>, values: map<string, string>): (lines: seq<string>)
    requires forall k :: k in keys ==> k in values
    ensures |lines| == |keys|
    ensures forall i :: 0 <= i < |keys| ==> lines[i] == FormatEntry(keys[i], values[keys[i]])
  {
    if keys == [] then []
    else
      var n := |keys| - 1;
      assert forall k :: k in keys[..n] ==> k in keys;
      EntryLines(keys[..n], values) + [FormatEntry(keys[n], values[keys[n]])]
  }

  /** The file text `update_identifier_status` writes for `d`. */
  function WriteStatuses(d: Dict): string
    requires Valid(d)
  {
    WriteLines(EntryLines(d.keys, d.values))
  }

  lemma {:induction false} WriteLinesSnoc(lines: seq<string>, line: string)
    ensures WriteLines(lines + [line]) == WriteLines(lines) + line + "\n"
  {
    if lines != [] {
      assert (lines + [line])[1..] == lines[1..] + [line];
      WriteLinesSnoc(lines[1..], line);
    }
  }

  lemma WriteLinesPrefix(lines: seq<string>, i: int)
    requires 0 <= i < |lines|
    ensures WriteLines(lines[..i + 1]) == WriteLines(lines[..i]) + lines[i] + "\n"
  {
    assert lines[..i + 1] == lines[..i] + [lines[i]];
    WriteLinesSnoc(lines[..i], lines[i]);
  }

  /** The loop of `update_identifier_status` that writes every entry of
      `d`, in dictionary order. */
  method WriteEntries(d: Dict) returns (content: string)
    requires Valid(d)
    ensures content == WriteStatuses(d)
  {
    ghost var lines := EntryLines(d.keys, d.values);
    content := "";
    for i := 0 to |d.keys|
      invariant content == WriteLines(lines[..i])
    {
      var ident := d.keys[i];
      var stat := d.values[ident];
      WriteLinesPrefix(lines, i);
      if stat != "" {
        content := content + (ident + "," + stat) + "\n";
      } else {
        content := content + ident + "\n";
      }
    }
    assert lines[..|d.keys|] == lines;
  }

  /** `update_identifier_status`: read the file, set the status of `id`,
      write every entry back in dictionary order. Returns the new file
      text. */
  method UpdateIdentifierStatus(file: Option<string>, id: string, status: string) returns (content: string)
    ensures content == WriteStatuses(Put(StatusOf(file), id, status))
  {
    var d := ReadIdentifierStatus(file);
    d := Put(d, id, status);
    content := WriteEntries(d);
  }

  /** Text that survives the write and the read unchanged: no comma, no
      newline, no surrounding whitespace. */
  predicate CleanText(s: string)
  {
    ',' !in s && '\n' !in s && (s == [] || (!IsWhitespace(s[0]) && !IsWhitespace(s[|s| - 1])))
  }

  predicate Clean(d: Dict)
  {
    forall k :: k in d.values ==> CleanText(k) && CleanText(d.values[k])
  }

  /** The line written for a clean entry is read back as that entry; in
      particular an empty status is written as the bare identifier and read
      back as `""`. */
  lemma ParseFormatEntry(id: string, status: string)
    requires CleanText(id) && CleanText(status)
    ensures ParseLine(FormatEntry(id, status)) == Some((id, status))
    ensures '\n' !in FormatEntry(id, status)
    ensures status == "" ==> FormatEntry(id, status) == id
  {
    if status != "" {
      var line := id + "," + status;
      assert line[0] == (if id == [] then ',' else id[0]);
      assert line[|line| - 1] == status[|status| - 1];
      StripFixedIff(line);
      ParseOneComma(line, id, status);
    } else {
      StripFixedIff(id);
      ParseNoComma(id);
    }
  }

  /** The entries read back from the lines written for clean keys. */
  lemma {:induction false} ParseEntryLines(keys: seq<string>, values: map<string, string>)
    requires forall k :: k in keys ==> k in values && CleanText(k) && CleanText(values[k])
    ensures forall i :: 0 <= i < |keys| ==> ParseLines(EntryLines(keys, values))[i] == Some((keys[i], values[keys[i]]))
  {
    forall i | 0 <= i < |keys|
      ensures ParseLines(EntryLines(keys, values))[i] == Some((keys[i], values[keys[i]]))
    {
      ParseLinesAt(EntryLines(keys, values), i);
      ParseFormatEntry(keys[i], values[keys[i]]);
    }
  }

  /** The mapping that sets each of `keys`, in order, to its value in
      `values`. */
  function KeyedMap(keys: seq<string>, values: map<string, string>): (m: map<string, string>)
    requires forall k :: k in keys ==> k in values
    ensures forall k :: k in m <==> k in keys
  {
    if keys == [] then map[]
    else
      var n := |keys| - 1;
      assert forall k :: k in keys <==> k in keys[..n] || k == keys[n];
      KeyedMap(keys[..n], values)[keys[n] := values[keys[n]]]
  }

  /** A mapping is the one its own keys rebuild. */
  lemma {:induction false} KeyedMapSame(keys: seq<string>, values: map<string, string>)
    requires forall k :: k in values <==> k in keys
    ensures KeyedMap(keys, values) == values
  {
    var m := KeyedMap(keys, values);
    forall k | k in m
      ensures m[k] == values[k]
    {
      KeyedMapAt(keys, values, k);
    }
  }

  lemma {:induction false} KeyedMapAt(keys: seq<string>, values: map<string, string>, k: string)
    requires forall k :: k in keys ==> k in values
    requires k in keys
    ensures KeyedMap(keys, values)[k] == values[k]
  {
    var n := |keys| - 1;
    if k != keys[n] {
      assert k in keys[..n] by {
        var j :| 0 <= j < |keys| && keys[j] == k;
        assert keys[..n][j] == k;
      }
      assert forall k :: k in keys[..n] ==> k in keys;
      KeyedMapAt(keys[..n], values, k);
    }
  }

  /** Collecting one entry per distinct key gives back those keys, in
      order, with their values. */
  lemma {:induction false} CollectKeyed(entries: seq<Option<(string, string)>>, keys: seq<string>, values: map<string, string>)
    requires |entries| == |keys|
    requires forall i, j :: 0 <= i < j < |keys| ==> keys[i] != keys[j]
    requires forall k :: k in keys ==> k in values
    requires forall i :: 0 <= i < |keys| ==> entries[i] == Some((keys[i], values[keys[i]]))
    ensures Collect(entries) == Dict(keys, KeyedMap(keys, values))
  {
    if keys != [] {
      var n := |keys| - 1;
      assert forall k :: k in keys[..n] ==> k in keys;
      assert forall i :: 0 <= i < n ==> entries[..n][i] == entries[i];
      CollectKeyed(entries[..n], keys[..n], values);
      KeyedPut(keys, values);
    }
  }

  /** Putting the last of distinct keys after the others rebuilds the
      keyed dictionary. */
  lemma KeyedPut(keys: seq<string>, values: map<string, string>)
    requires keys != []
    requires forall i, j :: 0 <= i < j < |keys| ==> keys[i] != keys[j]
    requires forall k :: k in keys ==> k in values
    ensures var n := |keys| - 1;
      Put(Dict(keys[..n], KeyedMap(keys[..n], values)), keys[n], values[keys[n]]) == Dict(keys, KeyedMap(keys, values))
  {
    var n := |keys| - 1;
    assert keys[n] !in keys[..n];
    assert keys == keys[..n] + [keys[n]];
  }

  /** Writing a clean dictionary and reading the file back gives the same
      dictionary. */
  lemma WriteReadRoundTrip(d: Dict)
    requires Valid(d) && Clean(d)
    ensures StatusOf(Some(WriteStatuses(d))) == d
  {
    var lines := EntryLines(d.keys, d.values);
    forall i | 0 <= i < |lines|
      ensures '\n' !in lines[i]
    {
      ParseFormatEntry(d.keys[i], d.values[d.keys[i]]);
    }
    LinesWriteLines(lines);
    ParseEntryLines(d.keys, d.values);
    CollectKeyed(ParseLines(lines), d.keys, d.values);
    KeyedMapSame(d.keys, d.values);
  }

  /** After `update_identifier_status(file, id, status)`, reading the file
      gives the old dictionary with `id` set to `status`: every other entry
      is unchanged and keeps its position, and a new `id` comes last. */
  lemma UpdateReadBack(file: Option<string>, id: string, status: string)
    requires Clean(StatusOf(file)) && CleanText(id) && CleanText(status)
    ensures StatusOf(Some(WriteStatuses(Put(StatusOf(file), id, status)))) == Put(StatusOf(file), id, status)
  {
    var d := Put(StatusOf(file), id, status);
    PutMeaning(StatusOf(file), id, status);
    assert Clean(d);
    WriteReadRoundTrip(d);
  }
}

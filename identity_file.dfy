/**
 * The identity file `.sys/hwsw.info` on the device: one `key="value"` pair
 * per line. `ParseLines` reads it leniently, `WriteLines` writes it back.
 */
module IdentityFile {
  import opened Wrappers
  import opened Str

  /**
   * The reading of one line: it is kept only if splitting it on `=` gives
   * exactly two parts; the key is the first part as it stands and the value is
   * the second part with every `"` removed.
   */
  function ParseLine(line: string): Option<(string, string)>
  {
    var parts := Split(line, '=');
    if |parts| == 2 then Some((parts[0], RemoveChar(parts[1], '"'))) else None
  }

  /**
   * A line is kept exactly when it holds one `=`; its key is the text before
   * that `=` and its value the text after it with every `"` removed.
   */
  lemma ParseLineSpec(line: string)
    ensures ParseLine(line).Some? <==> Count(line, '=') == 1
    ensures ParseLine(line).Some? ==>
      && '=' in line
      && ParseLine(line).value == (line[..IndexOf(line, '=')], RemoveChar(line[IndexOf(line, '=') + 1..], '"'))
  {
    if Count(line, '=') == 1 {
      SplitOnce(line, '=');
    }
  }

  /** What one line reads as: a key and a value, or nothing. */
  type Entry = Option<(string, string)>

  /** What each line reads as, line by line. */
  function Entries(lines: seq<string>): seq<Entry>
  {
    seq(|lines|, i requires 0 <= i < |lines| => ParseLine(lines[i]))
  }

  /** The dictionary built by inserting the read pairs in order. */
  function Insert(es: seq<Entry>): map<string, string>
  {
    if es == [] then map[]
    else
      var d := Insert(es[..|es| - 1]);
      match es[|es| - 1]
      case None => d
      case Some(kv) => d[kv.0 := kv.1]
  }

  /** The dictionary that `parse_lines` returns for the file content. */
  function Parse(content: string): map<string, string>
  {
    Insert(Entries(Lines(content)))
  }

  /** `parse_lines`: one pass over the lines, inserting every kept pair. */
  method ParseLines(content: string) returns (dict: map<string, string>)
    ensures dict == Parse(content)
  {
    var lines := Lines(content);
    ghost var es := Entries(lines);
    dict := map[];
    var i := 0;
    while i < |lines|
      invariant 0 <= i <= |lines|
      invariant dict == Insert(es[..i])
    {
      assert es[..i + 1][..i] == es[..i];
      var parts := Split(lines[i], '=');
      if |parts| == 2 {
        var key := parts[0];
        var value := RemoveChar(parts[1], '"');
        dict := dict[key := value];
      }
      i := i + 1;
    }
    assert es[..i] == es;
  }

  /** The entry `e` sets `key`. */
  predicate Sets(e: Entry, key: string)
  {
    e.Some? && e.value.0 == key
  }

  /** A key is in the dictionary exactly when some entry sets it. */
  lemma {:induction false} InsertKeys(es: seq<Entry>, key: string)
    ensures key in Insert(es) <==> exists i :: 0 <= i < |es| && Sets(es[i], key)
  {
    if es != [] {
      var init := es[..|es| - 1];
      InsertKeys(init, key);
      if exists i :: 0 <= i < |init| && Sets(init[i], key) {
        var i :| 0 <= i < |init| && Sets(init[i], key);
        assert es[i] == init[i];
      }
      if exists i :: 0 <= i < |es| && Sets(es[i], key) {
        var i :| 0 <= i < |es| && Sets(es[i], key);
        if i < |init| {
          assert init[i] == es[i];
        }
      }
    }
  }

  /** The value of a key is the one of the last entry that sets it. */
  lemma {:induction false} InsertLastWins(es: seq<Entry>, key: string, i: nat)
    requires i < |es| && Sets(es[i], key)
    requires forall j :: i < j < |es| ==> !Sets(es[j], key)
    ensures key in Insert(es) && Insert(es)[key] == es[i].value.1
  {
    var init := es[..|es| - 1];
    if i < |es| - 1 {
      assert init[i] == es[i];
      forall j | i < j < |init| ensures !Sets(init[j], key) {
        assert init[j] == es[j];
      }
      InsertLastWins(init, key, i);
    }
  }

  /** One more entry: a kept pair overwrites, a dropped line changes nothing. */
  lemma InsertSnoc(es: seq<Entry>, e: Entry)
    ensures Insert(es + [e]) == if e.Some? then Insert(es)[e.value.0 := e.value.1] else Insert(es)
  {
    assert (es + [e])[..|es|] == es;
  }

  lemma EntriesSnoc(lines: seq<string>, line: string)
    ensures Entries(lines + [line]) == Entries(lines) + [ParseLine(line)]
  {
  }

  /** A key may be written back: no `=` and no line feed. */
  predicate CleanKey(k: string)
  {
    '=' !in k && '\n' !in k
  }

  /** A value may be written back: no `=`, no `"` and no line feed. */
  predicate CleanValue(v: string)
  {
    '=' !in v && '"' !in v && '\n' !in v
  }

  predicate Clean(d: map<string, string>)
  {
    forall k :: k in d ==> CleanKey(k) && CleanValue(d[k])
  }

  /** Every pair read from a line without a line feed can be written back. */
  lemma ParseLineClean(line: string)
    requires '\n' !in line && ParseLine(line).Some?
    ensures CleanKey(ParseLine(line).value.0) && CleanValue(ParseLine(line).value.1)
  {
    ParseLineSpec(line);
    var i := IndexOf(line, '=');
    var raw := line[i + 1..];
    CountAround(line, '=', i);
    assert multiset(line[..i])['='] == 0;
    assert multiset(raw)['='] == 0;
    assert '\n' !in raw;
    var v := RemoveChar(raw, '"');
    assert multiset(v)['='] == 0 && multiset(v)['\n'] == 0 && multiset(v)['"'] == 0;
  }

  /** Whatever `parse_lines` returns can be written back without loss. */
  lemma {:induction false} InsertClean(es: seq<Entry>)
    requires forall i :: 0 <= i < |es| && es[i].Some? ==> CleanKey(es[i].value.0) && CleanValue(es[i].value.1)
    ensures Clean(Insert(es))
  {
    if es != [] {
      InsertClean(es[..|es| - 1]);
    }
  }

  lemma ParseClean(content: string)
    ensures Clean(Parse(content))
  {
    var lines := Lines(content);
    var es := Entries(lines);
    forall i | 0 <= i < |es| && es[i].Some?
      ensures CleanKey(es[i].value.0) && CleanValue(es[i].value.1)
    {
      ParseLineClean(lines[i]);
    }
    InsertClean(es);
  }

  /** The text of the line `write_lines` emits for one entry. */
  function EntryLine(key: string, value: string): string
  {
    key + "=\"" + value + "\""
  }

  /** The line `write_lines` emits for one entry, with its line feed. */
  function FormatLine(key: string, value: string): string
  {
    EntryLine(key, value) + "\n"
  }

  /** An emitted line is read back as one line. */
  lemma LinesOfEntry(key: string, value: string)
    requires '\n' !in key && '\n' !in value
    ensures Lines(FormatLine(key, value)) == [EntryLine(key, value)]
  {
    var line := EntryLine(key, value);
    assert line[|line| - 1] == '"';
    LinesOfOne(line);
  }

  /** The text `write_lines` produces when the map yields its keys in `order`. */
  function Render(dict: map<string, string>, order: seq<string>): (text: string)
    requires forall k :: k in order ==> k in dict
    ensures text == [] || text[|text| - 1] == '\n'
  {
    if order == [] then ""
    else
      var k := order[|order| - 1];
      Render(dict, order[..|order| - 1]) + FormatLine(k, dict[k])
  }

  /** `order` lists every key of `dict` exactly once. */
  ghost predicate Enumerates(order: seq<string>, dict: map<string, string>)
  {
    && (forall k :: k in dict <==> k in order)
    && (forall i, j :: 0 <= i < j < |order| ==> order[i] != order[j])
  }

  /**
   * `write_lines`: one line per entry, in the map's iteration order, which a
   * hash map leaves unspecified and the model therefore leaves open.
   */
  method WriteLines(dict: map<string, string>) returns (text: string)
    ensures exists order :: Enumerates(order, dict) && text == Render(dict, order)
  {
    text := "";
    var rest := dict.Keys;
    ghost var order: seq<string> := [];
    while rest != {}
      invariant rest <= dict.Keys
      invariant forall k :: k in dict <==> k in order || k in rest
      invariant forall k :: k in order ==> k !in rest
      invariant forall i, j :: 0 <= i < j < |order| ==> order[i] != order[j]
      invariant text == Render(dict, order)
      decreases rest
    {
      var key :| key in rest;
      text := text + FormatLine(key, dict[key]);
      assert (order + [key])[..|order|] == order;
      order := order + [key];
      rest := rest - {key};
    }
    assert Enumerates(order, dict);
  }

  /** A written line reads back as the entry it was written from. */
  lemma ParseFormatted(key: string, value: string)
    requires CleanKey(key) && CleanValue(value)
    ensures ParseLine(EntryLine(key, value)) == Some((key, value))
  {
    var tail := "\"" + value + "\"";
    assert key + "=\"" + value + "\"" == key + "=" + tail;
    assert '=' !in tail;
    ParseKeyed(key, tail);
    UnquoteQuoted(value);
  }

  /** A line with one `=` reads as the text around it. */
  lemma ParseKeyed(key: string, tail: string)
    requires '=' !in key && '=' !in tail
    ensures ParseLine(key + "=" + tail) == Some((key, RemoveChar(tail, '"')))
  {
    var line := key + "=" + tail;
    assert Count(line, '=') == 1 by {
      assert multiset(line) == multiset(key) + multiset{'='} + multiset(tail);
    }
    assert line[..|key|] == key && line[|key| + 1..] == tail;
    IndexOfUnique(line, '=', |key|);
    ParseLineSpec(line);
  }

  /** Stripping quotes from a quoted quote-free value gives the value. */
  lemma UnquoteQuoted(value: string)
    requires '"' !in value
    ensures RemoveChar("\"" + value + "\"", '"') == value
  {
    var q := "\"";
    assert RemoveChar(q, '"') == [];
    RemoveCharAppend(q + value, q, '"');
    RemoveCharAppend(q, value, '"');
    RemoveCharAbsent(value, '"');
    assert [] + value + [] == value;
  }

  /** Reading one more kept line inserts its pair. */
  lemma ReadKept(lines: seq<string>, line: string, key: string, value: string)
    requires ParseLine(line) == Some((key, value))
    ensures Insert(Entries(lines + [line])) == Insert(Entries(lines))[key := value]
  {
    EntriesSnoc(lines, line);
    InsertSnoc(Entries(lines), ParseLine(line));
  }

  /** The rendered text splits into one line per listed entry. */
  lemma RenderLines(dict: map<string, string>, order: seq<string>)
    requires forall k :: k in order ==> k in dict
    requires order != [] && Clean(dict)
    ensures var k := order[|order| - 1];
      Lines(Render(dict, order)) == Lines(Render(dict, order[..|order| - 1])) + [EntryLine(k, dict[k])]
  {
    var k := order[|order| - 1];
    LinesAppend(Render(dict, order[..|order| - 1]), FormatLine(k, dict[k]));
    LinesOfEntry(k, dict[k]);
  }

  /**
   * Written text, line by line: exactly one `key="value"` line per listed
   * key, in the listed order, and nothing else.
   */
  lemma {:induction false} RenderEntries(dict: map<string, string>, order: seq<string>)
    requires forall k :: k in order ==> k in dict
    requires Clean(dict)
    ensures |Lines(Render(dict, order))| == |order|
    ensures forall i :: 0 <= i < |order| ==> Lines(Render(dict, order))[i] == EntryLine(order[i], dict[order[i]])
  {
    if order != [] {
      var init := order[..|order| - 1];
      RenderEntries(dict, init);
      RenderLines(dict, order);
      forall i | 0 <= i < |order| - 1 ensures init[i] == order[i] {
      }
    }
  }

  /** Reading a rendered text gives back the listed entries. */
  lemma {:induction false} RenderParse(dict: map<string, string>, order: seq<string>)
    requires forall k :: k in order ==> k in dict
    requires Clean(dict)
    ensures Parse(Render(dict, order)) == map k | k in dict && k in order :: dict[k]
  {
    if order != [] {
      var init := order[..|order| - 1];
      var k := order[|order| - 1];
      var line := EntryLine(k, dict[k]);
      RenderParse(dict, init);
      RenderLines(dict, order);
      ParseFormatted(k, dict[k]);
      ReadKept(Lines(Render(dict, init)), line, k, dict[k]);
      forall x | x in order ensures x == k || x in init {
        var j :| 0 <= j < |order| && order[j] == x;
        if j < |order| - 1 {
          assert init[j] == x;
        }
      }
    }
  }

  /** Writing a clean dictionary and reading it back gives the same dictionary. */
  lemma RoundTrip(dict: map<string, string>, order: seq<string>)
    requires Clean(dict) && Enumerates(order, dict)
    ensures Parse(Render(dict, order)) == dict
  {
    RenderParse(dict, order);
  }

  /** Reading one more dropped line changes nothing. */
  lemma ReadDropped(lines: seq<string>, line: string)
    requires ParseLine(line).None?
    ensures Insert(Entries(lines + [line])) == Insert(Entries(lines))
  {
    EntriesSnoc(lines, line);
    InsertSnoc(Entries(lines), ParseLine(line));
  }

  /** A one-entry dictionary renders as that entry's line. */
  lemma RenderOne(dict: map<string, string>, key: string)
    requires key in dict
    ensures Render(dict, [key]) == FormatLine(key, dict[key])
  {
    assert [key][..0] == [];
  }

  /** A value holding a `"` comes back with that quote gone. */
  lemma QuoteIsLost(key: string, a: string, b: string)
    requires CleanKey(key) && CleanValue(a) && CleanValue(b)
    ensures Parse(Render(map[key := a + "\"" + b], [key])) == map[key := a + b]
  {
    var q := "\"";
    var v := a + q + b;
    var line := EntryLine(key, v);
    RenderOne(map[key := v], key);
    LinesOfEntry(key, v);
    var tail := q + a + q + b + q;
    assert line == key + "=" + tail;
    ParseKeyed(key, tail);
    UnquoteInner(a, b);
    ReadKept([], line, key, a + b);
    assert [] + [line] == [line];
  }

  lemma UnquoteInner(a: string, b: string)
    requires '"' !in a && '"' !in b
    ensures RemoveChar("\"" + a + "\"" + b + "\"", '"') == a + b
  {
    var q := "\"";
    assert RemoveChar(q, '"') == [];
    var x1 := q + a;
    assert RemoveChar(x1, '"') == a by {
      RemoveCharAppend(q, a, '"');
      RemoveCharAbsent(a, '"');
    }
    var x2 := x1 + q;
    assert RemoveChar(x2, '"') == a by {
      RemoveCharAppend(x1, q, '"');
    }
    var x3 := x2 + b;
    assert RemoveChar(x3, '"') == a + b by {
      RemoveCharAppend(x2, b, '"');
      RemoveCharAbsent(b, '"');
    }
    assert RemoveChar(x3 + q, '"') == a + b by {
      RemoveCharAppend(x3, q, '"');
    }
  }

  /** A value holding an `=` makes its line unreadable, so the entry disappears. */
  lemma EqualsSignDropsEntry(key: string, value: string)
    requires '\n' !in key && '\n' !in value && '=' in value
    ensures Parse(Render(map[key := value], [key])) == map[]
  {
    var line := EntryLine(key, value);
    RenderOne(map[key := value], key);
    LinesOfEntry(key, value);
    assert Count(line, '=') >= 2 by {
      assert line == key + "=" + "\"" + value + "\"";
      assert multiset(line) == multiset(key) + multiset{'='} + multiset{'"'} + multiset(value) + multiset{'"'};
    }
    ParseLineSpec(line);
    ReadDropped([], line);
    assert [] + [line] == [line];
  }

  /** The file content of the parser's unit test reads as both identity keys. */
  lemma ParseExample()
    ensures Parse("hw=\"Skytraxx 3.0\"\nsw=\"3.0.0\"") == map["hw" := "Skytraxx 3.0", "sw" := "3.0.0"]
  {
    TwoEntries("hw", "Skytraxx 3.0", "sw", "3.0.0");
    ExampleLines();
  }

  /** Two written lines with different keys read as a two-entry dictionary. */
  lemma TwoEntries(k1: string, v1: string, k2: string, v2: string)
    requires CleanKey(k1) && CleanValue(v1) && CleanKey(k2) && CleanValue(v2)
    ensures Insert(Entries([EntryLine(k1, v1)] + [EntryLine(k2, v2)])) == map[k1 := v1, k2 := v2]
  {
    ParseFormatted(k1, v1);
    ParseFormatted(k2, v2);
    var es := Entries([EntryLine(k1, v1)] + [EntryLine(k2, v2)]);
    assert es == [Some((k1, v1))] + [Some((k2, v2))];
    InsertSnoc([], Some((k1, v1)));
    InsertSnoc([Some((k1, v1))], Some((k2, v2)));
    assert [] + [Some((k1, v1))] == [Some((k1, v1))];
  }

  lemma ExampleLines()
    ensures Lines("hw=\"Skytraxx 3.0\"\nsw=\"3.0.0\"") ==
      [EntryLine("hw", "Skytraxx 3.0")] + [EntryLine("sw", "3.0.0")]
  {
    var sw := EntryLine("sw", "3.0.0");
    assert "hw=\"Skytraxx 3.0\"\nsw=\"3.0.0\"" == FormatLine("hw", "Skytraxx 3.0") + sw;
    LinesAppend(FormatLine("hw", "Skytraxx 3.0"), sw);
    LinesOfEntry("hw", "Skytraxx 3.0");
    LinesOfLast(sw);
  }

  /** A line without `=` between two good ones is skipped. */
  lemma ParseSkipsMalformed()
    ensures Parse("hw=\"A\"\nbad_line\nsw=\"1.0\"") == map["hw" := "A", "sw" := "1.0"]
  {
    DroppedBetween("hw", "A", "bad_line", "sw", "1.0");
    MalformedLines();
  }

  /** A line without `=` between two written lines leaves the dictionary of those two. */
  lemma DroppedBetween(k1: string, v1: string, bad: string, k2: string, v2: string)
    requires CleanKey(k1) && CleanValue(v1) && CleanKey(k2) && CleanValue(v2) && '=' !in bad
    ensures Insert(Entries(([EntryLine(k1, v1)] + [bad]) + [EntryLine(k2, v2)])) == map[k1 := v1, k2 := v2]
  {
    ParseFormatted(k1, v1);
    ParseFormatted(k2, v2);
    assert Count(bad, '=') == 0;
    ParseLineSpec(bad);
    var es := Entries(([EntryLine(k1, v1)] + [bad]) + [EntryLine(k2, v2)]);
    assert es == ([Some((k1, v1))] + [None]) + [Some((k2, v2))];
    InsertSnoc([], Some((k1, v1)));
    InsertSnoc([Some((k1, v1))], None);
    InsertSnoc([Some((k1, v1))] + [None], Some((k2, v2)));
    assert [] + [Some((k1, v1))] == [Some((k1, v1))];
  }

  lemma MalformedLines()
    ensures Lines("hw=\"A\"\nbad_line\nsw=\"1.0\"") ==
      ([EntryLine("hw", "A")] + ["bad_line"]) + [EntryLine("sw", "1.0")]
  {
    var bad := "bad_line";
    var sw := EntryLine("sw", "1.0");
    assert FormatLine("hw", "A") == "hw=\"A\"\n";
    assert sw == "sw=\"1.0\"";
    assert "hw=\"A\"\nbad_line\nsw=\"1.0\"" == FormatLine("hw", "A") + ((bad + "\n") + sw);
    LinesAppend(FormatLine("hw", "A"), (bad + "\n") + sw);
    LinesAppend(bad + "\n", sw);
    LinesOfEntry("hw", "A");
    LinesOfOne(bad);
    LinesOfLast(sw);
  }

  /** The writer's unit test: the two lines come out in one of the two orders. */
  lemma WriteExample(order: seq<string>)
    requires Enumerates(order, map["hw" := "Skytraxx 3.0", "sw" := "3.0.0"])
    ensures Render(map["hw" := "Skytraxx 3.0", "sw" := "3.0.0"], order) in
      {FormatLine("hw", "Skytraxx 3.0") + FormatLine("sw", "3.0.0"),
       FormatLine("sw", "3.0.0") + FormatLine("hw", "Skytraxx 3.0")}
  {
    var d := map["hw" := "Skytraxx 3.0", "sw" := "3.0.0"];
    assert |order| == 2 by {
      assert (set k | k in order) == d.Keys;
      DistinctSize(order);
    }
    assert order[0] in d && order[1] in d && order[0] != order[1];
    assert order == [order[0], order[1]];
    RenderTwo(d, order[0], order[1]);
  }

  lemma RenderTwo(dict: map<string, string>, a: string, b: string)
    requires a in dict && b in dict
    ensures Render(dict, [a, b]) == FormatLine(a, dict[a]) + FormatLine(b, dict[b])
  {
    assert [a, b][..1] == [a];
    RenderOne(dict, a);
  }

  /** The two lines of the writer's unit test, spelled out. */
  lemma WriteExampleText()
    ensures FormatLine("hw", "Skytraxx 3.0") + FormatLine("sw", "3.0.0") == "hw=\"Skytraxx 3.0\"\nsw=\"3.0.0\"\n"
  {
  }

  /**
   * Both orders of the writer's unit test are enumerations of its
   * dictionary, so `WriteLines` may produce either; they give different
   * texts, and only the first is the text the test expects.
   */
  lemma WriteOrders()
    ensures var d := map["hw" := "Skytraxx 3.0", "sw" := "3.0.0"];
      && Enumerates(["hw", "sw"], d)
      && Enumerates(["sw", "hw"], d)
      && Render(d, ["hw", "sw"]) == "hw=\"Skytraxx 3.0\"\nsw=\"3.0.0\"\n"
      && Render(d, ["sw", "hw"]) != Render(d, ["hw", "sw"])
  {
    var d := map["hw" := "Skytraxx 3.0", "sw" := "3.0.0"];
    RenderTwo(d, "hw", "sw");
    RenderTwo(d, "sw", "hw");
    WriteExampleText();
    assert Render(d, ["sw", "hw"])[0] == 's';
  }

  lemma {:induction false} DistinctSize(order: seq<string>)
    requires forall i, j :: 0 <= i < j < |order| ==> order[i] != order[j]
    ensures |set k | k in order| == |order|
  {
    if order != [] {
      var init := order[..|order| - 1];
      DistinctSize(init);
      assert (set k | k in order) == (set k | k in init) + {order[|order| - 1]};
      assert order[|order| - 1] !in init;
    }
  }
}

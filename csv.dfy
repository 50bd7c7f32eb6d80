/** `toCsv`: the export of the current view as comma-separated text, and a
    reader for that text against which the export is checked. The reader is
    in the style of section 2 of RFC 4180 (quoted fields, `""` for an embedded
    quote), with two differences: lines end in LF rather than CRLF, and every
    field must be quoted. */
module Csv {
  import opened Text
  import opened Dataset
  import opened Filter
  import opened Render

  datatype Option<T> = None | Some(value: T)

  /** The header row pushed before any data row. */
  const HEADER: seq<string> := ["Language", "Event Type", "Subject Line"]

  /** The header row as it appears on the first line of the export. */
  const HEADER_LINE: string := "\"Language\",\"Event Type\",\"Subject Line\""

  /** The replacement text the source passes to `replace` for every quote: a
      lone quote, so the replacement changes nothing. */
  const QUOTE_AS_WRITTEN: string := "\""

  /** The replacement that CSV readers expect for an embedded quote. */
  const QUOTE_DOUBLED: string := "\"\""

  /** `s.replace(/c/g, repl)`: every occurrence of the character c replaced by repl. */
  function ReplaceAll(s: string, c: char, repl: string): string
    decreases |s|
  {
    if s == [] then []
    else (if s[0] == c then repl else [s[0]]) + ReplaceAll(s[1..], c, repl)
  }

  /** Replacing a character by itself changes nothing: the source's quote
      replace is the identity. */
  lemma {:induction false} ReplaceIdentity(s: string, c: char)
    ensures ReplaceAll(s, c, [c]) == s
    decreases |s|
  {
    if s != [] {
      ReplaceIdentity(s[1..], c);
      assert s == [s[0]] + s[1..];
    }
  }

  /** A string without the character is left as it is, whatever the replacement. */
  lemma {:induction false} ReplaceAbsent(s: string, c: char, repl: string)
    requires c !in s
    ensures ReplaceAll(s, c, repl) == s
    decreases |s|
  {
    if s != [] {
      assert s[0] != c;
      assert c !in s[1..];
      ReplaceAbsent(s[1..], c, repl);
      assert s == [s[0]] + s[1..];
    }
  }

  /** One field: the value with its quotes replaced, wrapped in quotes. */
  function Field(v: string, repl: string): string
  {
    "\"" + ReplaceAll(v, '"', repl) + "\""
  }

  /** `r.map(...).join(',')`. */
  function EncodeRow(fields: seq<string>, repl: string): string
    decreases |fields|
  {
    if fields == [] then []
    else if |fields| == 1 then Field(fields[0], repl)
    else Field(fields[0], repl) + "," + EncodeRow(fields[1..], repl)
  }

  /** `rows.map(...).join('\n')`: no newline after the last row. */
  function Serialize(rows: seq<seq<string>>, repl: string): string
    decreases |rows|
  {
    if rows == [] then []
    else if |rows| == 1 then EncodeRow(rows[0], repl)
    else EncodeRow(rows[0], repl) + "\n" + Serialize(rows[1..], repl)
  }

  /** The data rows `toCsv` pushes: for each entry passing the search predicate
      (and only that one), a triple per pair kept by the row filter. */
  function CsvRows(items: seq<Entry>, sel: string, q: string): seq<seq<string>>
    decreases |items|
  {
    if items == [] then []
    else
      var n := |items| - 1;
      CsvRows(items[..n], sel, q) + EntryCsv(items[n], sel, q)
  }

  /** The rows one entry contributes: none unless it passes the search
      predicate, else a triple per pair kept by the row filter. */
  function EntryCsv(e: Entry, sel: string, q: string): seq<seq<string>>
  {
    if SearchMatches(e, q) then EntryRows(e.language, SelectRows(e.subjects, sel)) else []
  }

  /** The text `toCsv` returns. */
  function CsvText(items: seq<Entry>, sel: string, q: string): string
  {
    Serialize([HEADER] + CsvRows(items, sel, q), QUOTE_AS_WRITTEN)
  }

  /** `toCsv(items, filterEvt, q)`: start from the header row, push the rows
      of every entry, then serialise. */
  method ToCsv(items: seq<Entry>, sel: string, q: string) returns (csv: string)
    ensures csv == CsvText(items, sel, q)
  {
    var rows := [HEADER];
    rows := PushEntries(rows, items, sel, q);
    csv := Serialize(rows, QUOTE_AS_WRITTEN);
  }

  /** The `forEach` of `toCsv` over the entries, pushing onto `rows`. */
  method PushEntries(rows: seq<seq<string>>, items: seq<Entry>, sel: string, q: string) returns (out: seq<seq<string>>)
    ensures out == rows + CsvRows(items, sel, q)
  {
    out := rows;
    for i := 0 to |items|
      invariant out == rows + CsvRows(items[..i], sel, q)
    {
      out := PushEntry(out, items[i], sel, q);
      AppendRows(rows, CsvRows(items[..i], sel, q), EntryCsv(items[i], sel, q));
      CsvRowsStep(items, i, sel, q);
    }
    assert items[..|items|] == items;
  }

  /** Appending is associative; stated once so that the loops above need not
      rediscover it. */
  lemma AppendRows(a: seq<seq<string>>, b: seq<seq<string>>, c: seq<seq<string>>)
    ensures a + b + c == a + (b + c)
  {
  }

  /** The body of that `forEach`: an entry failing the search predicate is
      skipped; otherwise one triple is pushed per pair the row filter keeps. */
  method PushEntry(rows: seq<seq<string>>, item: Entry, sel: string, q: string) returns (out: seq<seq<string>>)
    ensures out == rows + EntryCsv(item, sel, q)
  {
    out := rows;
    var langText := Lower(item.language);
    var matchesSearch := q == [] || Contains(langText, q) || SubjectContains(item.subjects, q);
    if !matchesSearch {
      assert EntryCsv(item, sel, q) == [];
      return;
    }
    var filtered := SelectRows(item.subjects, sel);
    for j := 0 to |filtered|
      invariant out == rows + EntryRows(item.language, filtered[..j])
    {
      EntryRowsStep(item.language, filtered, j);
      out := out + [[item.language, filtered[j].event, filtered[j].line]];
    }
    assert filtered[..|filtered|] == filtered;
  }

  /** One more entry adds the rows of that entry. */
  lemma CsvRowsStep(items: seq<Entry>, i: nat, sel: string, q: string)
    requires i < |items|
    ensures CsvRows(items[..i + 1], sel, q) == CsvRows(items[..i], sel, q) + EntryCsv(items[i], sel, q)
  {
    assert items[..i + 1][..i] == items[..i];
  }

  /** One more pair adds its triple. */
  lemma EntryRowsStep(language: string, pairs: seq<Pair>, j: nat)
    requires j < |pairs|
    ensures EntryRows(language, pairs[..j + 1]) == EntryRows(language, pairs[..j]) + [[language, pairs[j].event, pairs[j].line]]
  {
  }

  /** The header fields contain no quote, so the header line is fixed. */
  lemma HeaderEncoding()
    ensures EncodeRow(HEADER, QUOTE_AS_WRITTEN) == HEADER_LINE
  {
    ThreeFields(HEADER);
    HeaderLineSpelled();
  }

  /** As written, a line of three fields is each value between quotes, joined
      by commas. */
  lemma ThreeFields(row: seq<string>)
    requires |row| == 3
    ensures EncodeRow(row, QUOTE_AS_WRITTEN) ==
      "\"" + row[0] + "\"" + "," + ("\"" + row[1] + "\"" + "," + ("\"" + row[2] + "\""))
  {
    var a, b, c := row[0], row[1], row[2];
    var rest := row[1..];
    assert EncodeRow(rest, QUOTE_AS_WRITTEN) == Field(b, QUOTE_AS_WRITTEN) + "," + Field(c, QUOTE_AS_WRITTEN) by {
      assert rest[1..] == [c];
    }
    assert EncodeRow(row, QUOTE_AS_WRITTEN) == Field(a, QUOTE_AS_WRITTEN) + "," + EncodeRow(rest, QUOTE_AS_WRITTEN);
    FieldAsWritten(a);
    FieldAsWritten(b);
    FieldAsWritten(c);
  }

  /** The header line, spelled out field by field. */
  // The header line is spelled out in pieces (`LanguageField`, `EventTypeField`,
  // `SubjectLineField`, `HeaderLineJoined`) so that each literal comparison
  // stays a small proof obligation.
  lemma HeaderLineSpelled()
    ensures "\"" + "Language" + "\"" + "," + ("\"" + "Event Type" + "\"" + "," + ("\"" + "Subject Line" + "\"")) == HEADER_LINE
  {
    LanguageField();
    EventTypeField();
    SubjectLineField();
    HeaderLineJoined();
  }

  /** The three quoted header fields, and the line they join to. */
  lemma LanguageField()
    ensures "\"" + "Language" + "\"" + "," == "\"Language\","
  {
  }

  lemma EventTypeField()
    ensures "\"" + "Event Type" + "\"" + "," == "\"Event Type\","
  {
  }

  lemma SubjectLineField()
    ensures "\"" + "Subject Line" + "\"" == "\"Subject Line\""
  {
  }

  lemma HeaderLineJoined()
    ensures "\"Language\"," + ("\"Event Type\"," + "\"Subject Line\"") == HEADER_LINE
  {
  }

  /** As written, every field is the value itself between two quotes. */
  lemma FieldAsWritten(v: string)
    ensures Field(v, QUOTE_AS_WRITTEN) == "\"" + v + "\""
  {
    ReplaceIdentity(v, '"');
  }

  /** No header field holds a quote. */
  lemma HeaderHasNoQuote()
    ensures forall j :: 0 <= j < |HEADER| ==> '"' !in HEADER[j]
  {
  }

  /** The export always starts with the header line; with no data rows it is
      exactly that line, otherwise the data rows follow after one newline.
      It never ends with a newline. */
  lemma HeaderFirst(items: seq<Entry>, sel: string, q: string)
    ensures CsvRows(items, sel, q) == [] ==> CsvText(items, sel, q) == HEADER_LINE
    ensures CsvRows(items, sel, q) != [] ==>
      CsvText(items, sel, q) == HEADER_LINE + "\n" + Serialize(CsvRows(items, sel, q), QUOTE_AS_WRITTEN)
    ensures CsvText(items, sel, q)[|CsvText(items, sel, q)| - 1] == '"'
  {
    CsvRowsShape(items, sel, q);
    HeaderThenRows(CsvRows(items, sel, q));
  }

  /** The header line, then the data lines after one newline each; the text
      ends with a quote. */
  lemma HeaderThenRows(rows: seq<seq<string>>)
    requires forall i :: 0 <= i < |rows| ==> rows[i] != []
    ensures rows == [] ==> Serialize([HEADER] + rows, QUOTE_AS_WRITTEN) == HEADER_LINE
    ensures rows != [] ==> Serialize([HEADER] + rows, QUOTE_AS_WRITTEN) == HEADER_LINE + "\n" + Serialize(rows, QUOTE_AS_WRITTEN)
    ensures |Serialize([HEADER] + rows, QUOTE_AS_WRITTEN)| > 0
    ensures Serialize([HEADER] + rows, QUOTE_AS_WRITTEN)[|Serialize([HEADER] + rows, QUOTE_AS_WRITTEN)| - 1] == '"'
  {
    HeaderEncoding();
    FirstThenRows(HEADER, HEADER_LINE, rows, QUOTE_AS_WRITTEN);
  }

  /** A first line, then the other lines after one newline each; the text
      ends with a quote. */
  lemma FirstThenRows(first: seq<string>, line: string, rows: seq<seq<string>>, repl: string)
    requires first != [] && EncodeRow(first, repl) == line
    requires forall i :: 0 <= i < |rows| ==> rows[i] != []
    ensures rows == [] ==> Serialize([first] + rows, repl) == line
    ensures rows != [] ==> Serialize([first] + rows, repl) == line + "\n" + Serialize(rows, repl)
    ensures |Serialize([first] + rows, repl)| > 0
    ensures Serialize([first] + rows, repl)[|Serialize([first] + rows, repl)| - 1] == '"'
  {
    SerializeCons(first, rows, repl);
    var all := [first] + rows;
    assert forall i :: 0 <= i < |all| ==> all[i] != [] by {
      assert forall i :: 1 <= i < |all| ==> all[i] == rows[i - 1];
    }
    SerializeEndsWithQuote(all, repl);
  }

  /** Serialising a first line and the rest. */
  lemma SerializeCons(first: seq<string>, rows: seq<seq<string>>, repl: string)
    ensures rows == [] ==> Serialize([first] + rows, repl) == EncodeRow(first, repl)
    ensures rows != [] ==> Serialize([first] + rows, repl) == EncodeRow(first, repl) + "\n" + Serialize(rows, repl)
  {
    assert ([first] + rows)[1..] == rows;
  }

  /** A line of fields ends with the closing quote of its last field. */
  lemma {:induction false} EncodeRowEndsWithQuote(fields: seq<string>, repl: string)
    requires fields != []
    ensures |EncodeRow(fields, repl)| > 0 && EncodeRow(fields, repl)[|EncodeRow(fields, repl)| - 1] == '"'
    decreases |fields|
  {
    if |fields| > 1 {
      EncodeRowEndsWithQuote(fields[1..], repl);
    }
  }

  /** A document of non-empty lines ends with a quote, never with a newline. */
  lemma {:induction false} SerializeEndsWithQuote(rows: seq<seq<string>>, repl: string)
    requires rows != []
    requires forall i :: 0 <= i < |rows| ==> rows[i] != []
    ensures |Serialize(rows, repl)| > 0 && Serialize(rows, repl)[|Serialize(rows, repl)| - 1] == '"'
    decreases |rows|
  {
    EncodeRowEndsWithQuote(rows[0], repl);
    if |rows| > 1 {
      assert forall i :: 0 <= i < |rows| - 1 ==> rows[1..][i] == rows[i + 1];
      SerializeEndsWithQuote(rows[1..], repl);
    }
  }

  /** Every data row is a `(language, event, subject)` triple. */
  lemma {:induction false} CsvRowsShape(items: seq<Entry>, sel: string, q: string)
    ensures forall i :: 0 <= i < |CsvRows(items, sel, q)| ==> |CsvRows(items, sel, q)[i]| == 3
    decreases |items|
  {
    if items != [] {
      CsvRowsShape(items[..|items| - 1], sel, q);
    }
  }

  /** Although `toCsv` skips the entry-level event check, its data rows are
      exactly the rows of the cards `render` shows for the same query and
      selector, in the same order: an entry without the selected key has no
      rows to contribute. */
  lemma {:induction false} CsvMatchesRender(items: seq<Entry>, sel: string, q: string)
    ensures CsvRows(items, sel, q) == CardRows(ShownCards(items, q, sel))
    decreases |items|
  {
    if items != [] {
      var n := |items| - 1;
      CsvMatchesRender(items[..n], sel, q);
      var init := ShownCards(items[..n], q, sel);
      if Shown(items[n], q, sel) {
        var c := BuildCard(items[n], sel);
        assert ShownCards(items, q, sel) == init + [c];
        CardRowsAppend(init, c);
      } else {
        assert ShownCards(items, q, sel) == init;
        if SearchMatches(items[n], q) {
          NoRowsWithoutEvent(items[n], sel);
        }
      }
    }
  }

  /** Appending a card appends its table rows. */
  lemma CardRowsAppend(cards: seq<Card>, c: Card)
    ensures CardRows(cards + [c]) == CardRows(cards) + EntryRows(c.language, c.rows)
  {
    assert (cards + [c])[..|cards|] == cards;
  }

  /** The number of data rows is the number of table rows on the page. */
  lemma CsvRowCount(items: seq<Entry>, sel: string, q: string)
    ensures |CsvRows(items, sel, q)| == RowTotal(ShownCards(items, q, sel))
  {
    CsvMatchesRender(items, sel, q);
    CardRowsCount(ShownCards(items, q, sel));
  }

  // ----- Reading the export back -----

  /** Reads the body of a quoted field up to its closing quote; `""` stands for
      one quote. Returns the value and the text after the closing quote. */
  function ParseQuoted(s: string, acc: string): (r: Option<(string, string)>)
    ensures r.Some? ==> |r.value.1| < |s|
    decreases |s|
  {
    if s == [] then None
    else if s[0] == '"' then
      if |s| > 1 && s[1] == '"' then ParseQuoted(s[2..], acc + "\"")
      else Some((acc, s[1..]))
    else ParseQuoted(s[1..], acc + [s[0]])
  }

  /** Reads one quoted field. */
  function ParseField(s: string): (r: Option<(string, string)>)
    ensures r.Some? ==> |r.value.1| < |s|
  {
    if s != [] && s[0] == '"' then ParseQuoted(s[1..], "") else None
  }

  /** Reads the comma-separated fields of one line. */
  function ParseRow(s: string): (r: Option<(seq<string>, string)>)
    ensures r.Some? ==> |r.value.1| < |s|
    decreases |s|
  {
    match ParseField(s)
    case None => None
    case Some((f, rest)) =>
      if rest != [] && rest[0] == ',' then
        match ParseRow(rest[1..])
        case None => None
        case Some((fs, rest')) => Some(([f] + fs, rest'))
      else Some(([f], rest))
  }

  /** Reads a whole document of newline-separated lines. */
  function ParseDoc(s: string): Option<seq<seq<string>>>
    decreases |s|
  {
    match ParseRow(s)
    case None => None
    case Some((row, rest)) =>
      if rest == [] then Some([row])
      else if rest[0] == '\n' then
        match ParseDoc(rest[1..])
        case None => None
        case Some(rows) => Some([row] + rows)
      else None
  }

  /** A line survives serialisation with replacement `repl`: always with the
      doubled quote, and with the source's replacement only when no field
      holds a quote. */
  predicate RowDecodable(fields: seq<string>, repl: string)
  {
    repl == QUOTE_DOUBLED || forall j :: 0 <= j < |fields| ==> '"' !in fields[j]
  }

  /** Every line is non-empty and decodable. */
  predicate Decodable(rows: seq<seq<string>>, repl: string)
  {
    forall i :: 0 <= i < |rows| ==> rows[i] != [] && RowDecodable(rows[i], repl)
  }

  /** Dropping the first line keeps a document decodable. */
  lemma DecodableTail(rows: seq<seq<string>>, repl: string)
    requires rows != [] && Decodable(rows, repl)
    ensures Decodable(rows[1..], repl)
  {
    var others := rows[1..];
    assert forall i :: 0 <= i < |others| ==> others[i] == rows[i + 1];
  }

  /** Dropping the first field keeps a line decodable. */
  lemma RowDecodableTail(fields: seq<string>, repl: string)
    requires fields != [] && RowDecodable(fields, repl)
    ensures RowDecodable(fields[1..], repl)
  {
    var others := fields[1..];
    assert forall j :: 0 <= j < |others| ==> others[j] == fields[j + 1];
  }

  /** A field escaped with doubled quotes reads back as its value. */
  lemma {:induction false} ParseEscaped(v: string, t: string, acc: string)
    requires t == [] || t[0] != '"'
    ensures ParseQuoted(ReplaceAll(v, '"', QUOTE_DOUBLED) + "\"" + t, acc) == Some((acc + v, t))
    decreases |v|
  {
    var s := ReplaceAll(v, '"', QUOTE_DOUBLED) + "\"" + t;
    if v == [] {
      assert s == "\"" + t;
      assert s[1..] == t;
      assert acc + v == acc;
    } else {
      var more := ReplaceAll(v[1..], '"', QUOTE_DOUBLED) + "\"" + t;
      if v[0] == '"' {
        assert s[0] == '"' && s[1] == '"' && s[2..] == more by {
          assert s == QUOTE_DOUBLED + more;
        }
        assert ParseQuoted(more, acc + "\"") == Some((acc + v, t)) by {
          ParseEscaped(v[1..], t, acc + "\"");
          assert acc + "\"" + v[1..] == acc + v;
        }
      } else {
        assert s[0] == v[0] && s[1..] == more by {
          assert s == [v[0]] + more;
        }
        assert ParseQuoted(more, acc + [v[0]]) == Some((acc + v, t)) by {
          ParseEscaped(v[1..], t, acc + [v[0]]);
          assert acc + [v[0]] + v[1..] == acc + v;
        }
      }
    }
  }

  /** One field reads back as its value when the replacement keeps it decodable. */
  lemma ParseFieldRoundTrip(v: string, t: string, repl: string)
    requires t == [] || t[0] != '"'
    requires repl == QUOTE_DOUBLED || '"' !in v
    ensures ParseField(Field(v, repl) + t) == Some((v, t))
  {
    var body := ReplaceAll(v, '"', repl);
    assert body == ReplaceAll(v, '"', QUOTE_DOUBLED) by {
      if repl != QUOTE_DOUBLED {
        ReplaceAbsent(v, '"', repl);
        ReplaceAbsent(v, '"', QUOTE_DOUBLED);
      }
    }
    var inner := body + "\"" + t;
    assert ParseQuoted(inner, "") == Some((v, t)) by {
      ParseEscaped(v, t, "");
      assert "" + v == v;
    }
    QuotedField(Field(v, repl) + t, inner);
  }

  /** A text that starts with a quote is read by ParseQuoted from the next
      character on. */
  lemma QuotedField(s: string, inner: string)
    requires s == "\"" + inner
    ensures ParseField(s) == ParseQuoted(inner, "")
  {
    assert s[1..] == inner;
  }

  /** One line reads back as its fields. */
  lemma {:induction false} ParseRowRoundTrip(fields: seq<string>, t: string, repl: string)
    requires fields != []
    requires t == [] || t[0] == '\n'
    requires RowDecodable(fields, repl)
    ensures ParseRow(EncodeRow(fields, repl) + t) == Some((fields, t))
    decreases |fields|
  {
    var f := Field(fields[0], repl);
    assert repl == QUOTE_DOUBLED || '"' !in fields[0];
    if |fields| == 1 {
      assert EncodeRow(fields, repl) + t == f + t;
      assert ParseField(f + t) == Some((fields[0], t)) by {
        ParseFieldRoundTrip(fields[0], t, repl);
      }
      assert [fields[0]] == fields;
    } else {
      var others := fields[1..];
      var line := EncodeRow(others, repl);
      assert ParseField(f + ("," + line + t)) == Some((fields[0], "," + line + t)) by {
        ParseFieldRoundTrip(fields[0], "," + line + t, repl);
      }
      assert ParseRow(line + t) == Some((others, t)) by {
        RowDecodableTail(fields, repl);
        ParseRowRoundTrip(others, t, repl);
      }
      assert [fields[0]] + others == fields;
      ParseRowStep(EncodeRow(fields, repl) + t, f, fields[0], line, others, t);
    }
  }

  /** How ParseRow continues after a field followed by a comma. */
  lemma ParseRowStep(text: string, f: string, v: string, line: string, fs: seq<string>, t: string)
    requires text == f + "," + line + t
    requires ParseField(f + ("," + line + t)) == Some((v, "," + line + t))
    requires ParseRow(line + t) == Some((fs, t))
    ensures ParseRow(text) == Some(([v] + fs, t))
  {
    var tail := "," + line + t;
    assert text == f + tail;
    assert tail[1..] == line + t;
  }

  /** How ParseDoc continues after a line that ends in a newline. */
  lemma ParseDocStep(text: string, line: string, row: seq<string>, more: string, rows: seq<seq<string>>)
    requires text == line + "\n" + more
    requires ParseRow(line + ("\n" + more)) == Some((row, "\n" + more))
    requires ParseDoc(more) == Some(rows)
    ensures ParseDoc(text) == Some([row] + rows)
  {
    var rest := "\n" + more;
    assert text == line + rest;
    assert rest[1..] == more;
  }

  /** Reading a serialised document gives back its rows. */
  lemma {:induction false} ParseDocRoundTrip(rows: seq<seq<string>>, repl: string)
    requires rows != []
    requires Decodable(rows, repl)
    ensures ParseDoc(Serialize(rows, repl)) == Some(rows)
    decreases |rows|
  {
    if |rows| == 1 {
      ParseDocSingle(rows, repl);
    } else {
      DecodableTail(rows, repl);
      ParseDocRoundTrip(rows[1..], repl);
      ParseDocCons(rows, repl);
    }
  }

  /** A one-line document reads back as that line. */
  lemma ParseDocSingle(rows: seq<seq<string>>, repl: string)
    requires |rows| == 1
    requires Decodable(rows, repl)
    ensures ParseDoc(Serialize(rows, repl)) == Some(rows)
  {
    var line := EncodeRow(rows[0], repl);
    assert rows[0] != [] && RowDecodable(rows[0], repl);
    assert Serialize(rows, repl) == line + [];
    ParseRowRoundTrip(rows[0], [], repl);
    assert [rows[0]] == rows;
  }

  /** A first line followed by a document that reads back reads back. */
  lemma ParseDocCons(rows: seq<seq<string>>, repl: string)
    requires |rows| > 1
    requires Decodable(rows, repl)
    requires ParseDoc(Serialize(rows[1..], repl)) == Some(rows[1..])
    ensures ParseDoc(Serialize(rows, repl)) == Some(rows)
  {
    var line := EncodeRow(rows[0], repl);
    var others := rows[1..];
    var more := Serialize(others, repl);
    assert ParseRow(line + ("\n" + more)) == Some((rows[0], "\n" + more)) by {
      assert rows[0] != [] && RowDecodable(rows[0], repl);
      ParseRowRoundTrip(rows[0], "\n" + more, repl);
    }
    assert [rows[0]] + others == rows;
    ParseDocStep(Serialize(rows, repl), line, rows[0], more, others);
  }

  /** With doubled quotes, two row sets never serialise to the same text. */
  lemma DoubledInjective(a: seq<seq<string>>, b: seq<seq<string>>)
    requires a != [] && Decodable(a, QUOTE_DOUBLED)
    requires b != [] && Decodable(b, QUOTE_DOUBLED)
    requires Serialize(a, QUOTE_DOUBLED) == Serialize(b, QUOTE_DOUBLED)
    ensures a == b
  {
    ParseDocRoundTrip(a, QUOTE_DOUBLED);
    ParseDocRoundTrip(b, QUOTE_DOUBLED);
  }

  /** As written, the export reads back as its header and data rows whenever
      no language, event or subject holds a quote. */
  lemma CsvReadsBack(items: seq<Entry>, sel: string, q: string)
    requires forall i :: 0 <= i < |CsvRows(items, sel, q)| ==> RowDecodable(CsvRows(items, sel, q)[i], QUOTE_AS_WRITTEN)
    ensures ParseDoc(CsvText(items, sel, q)) == Some([HEADER] + CsvRows(items, sel, q))
  {
    var data := CsvRows(items, sel, q);
    var rows := [HEADER] + data;
    CsvRowsShape(items, sel, q);
    HeaderHasNoQuote();
    assert forall i :: 1 <= i < |rows| ==> rows[i] == data[i - 1];
    ParseDocRoundTrip(rows, QUOTE_AS_WRITTEN);
  }

  /** The export with every embedded quote doubled, as CSV readers expect. */
  function EscapedCsvText(items: seq<Entry>, sel: string, q: string): string
  {
    Serialize([HEADER] + CsvRows(items, sel, q), QUOTE_DOUBLED)
  }

  /** With doubled quotes the export always reads back as its header and data
      rows, whatever the languages, events and subjects hold. */
  lemma EscapedCsvReadsBack(items: seq<Entry>, sel: string, q: string)
    ensures ParseDoc(EscapedCsvText(items, sel, q)) == Some([HEADER] + CsvRows(items, sel, q))
  {
    var data := CsvRows(items, sel, q);
    var rows := [HEADER] + data;
    CsvRowsShape(items, sel, q);
    assert forall i :: 1 <= i < |rows| ==> rows[i] == data[i - 1];
    ParseDocRoundTrip(rows, QUOTE_DOUBLED);
  }

  /** As written, a subject holding `","` cannot be told apart from two fields:
      two different rows give the same line. */
  lemma AsWrittenCollision()
    ensures Serialize([["x\",\"y", "z", "w"]], QUOTE_AS_WRITTEN) == Serialize([["x", "y\",\"z", "w"]], QUOTE_AS_WRITTEN)
    ensures ["x\",\"y", "z", "w"] != ["x", "y\",\"z", "w"]
  {
    ShiftedSeparator("x", "y", "z", "w");
    assert "x\",\"y" == "x" + "\",\"" + "y";
    assert "y\",\"z" == "y" + "\",\"" + "z";
    assert |"x\",\"y"| != |"x"|;
  }

  /** As written, moving a separator `","` from inside the first of three
      fields to inside the second leaves the line unchanged: the rows
      `[a + "\",\"" + b, c, d]` and `[a, b + "\",\"" + c, d]` encode alike. */
  lemma ShiftedSeparator(a: string, b: string, c: string, d: string)
    ensures EncodeRow([a + "\",\"" + b, c, d], QUOTE_AS_WRITTEN) ==
      EncodeRow([a, b + "\",\"" + c, d], QUOTE_AS_WRITTEN)
  {
    ThreeFields([a + "\",\"" + b, c, d]);
    ThreeFields([a, b + "\",\"" + c, d]);
    assert "\",\"" == "\"" + "," + "\"";
    RegroupFields("\"", ",", a, b, c, "\"" + d + "\"");
  }

  /** Both encodings, with the quote and the comma held abstract, are the
      same concatenation grouped differently: each regroups to the flat one. */
  lemma RegroupFields(q: string, comma: string, a: string, b: string, c: string, last: string)
    ensures q + (a + (q + comma + q) + b) + q + comma + (q + c + q + comma + last) ==
      q + a + q + comma + (q + (b + (q + comma + q) + c) + q + comma + last)
  {
    FlattenFirst(q, comma, a, b, c, last);
    FlattenSecond(q, comma, a, b, c, last);
  }

  lemma FlattenFirst(q: string, comma: string, a: string, b: string, c: string, last: string)
    ensures q + (a + (q + comma + q) + b) + q + comma + (q + c + q + comma + last) ==
      q + a + q + comma + q + b + q + comma + q + c + q + comma + last
  {
  }

  lemma FlattenSecond(q: string, comma: string, a: string, b: string, c: string, last: string)
    ensures q + a + q + comma + (q + (b + (q + comma + q) + c) + q + comma + last) ==
      q + a + q + comma + q + b + q + comma + q + c + q + comma + last
  {
  }


}

/** The worked examples of the viewer's behaviour: an empty query with the
    sentinel shows everything, and a one-language dataset with a single `push`
    subject is searched, filtered and exported. */
module Scenarios {
  import opened Text
  import opened Dataset
  import opened Filter
  import opened Render
  import opened Csv

  /** With an empty query and the sentinel every entry is shown, each with all
      of its rows and its full subject count. */
  lemma {:induction false} EverythingShown(items: seq<Entry>)
    ensures |ShownCards(items, [], ALL_EVENTS)| == |items|
    ensures forall k :: 0 <= k < |items| ==>
      ShownCards(items, [], ALL_EVENTS)[k] == Card(items[k].language, |items[k].subjects|, items[k].subjects)
    decreases |items|
  {
    if items != [] {
      var n := |items| - 1;
      EverythingShown(items[..n]);
      assert Shown(items[n], [], ALL_EVENTS);
    }
  }

  /** A query whose first character does not occur in s is not contained in s. */
  lemma NotContained(s: string, q: string)
    requires q != [] && q[0] !in s
    ensures !Contains(s, q)
  {
  }

  /** The entry of the example dataset. */
  const RUST: Entry := Entry("Rust", [Pair("push", "New commit")])

  /** Its card when it is shown, under the sentinel or under `push`. */
  const RUST_CARD: Card := Card("Rust", 1, [Pair("push", "New commit")])

  /** Searching for "rust" with all events shows the one card, badge 1, one row. */
  lemma SearchByLanguage()
    ensures View([RUST], Lower("rust"), ALL_EVENTS) == [CardNode(RUST_CARD)]
  {
    var q := Lower("rust");
    assert q == "rust";
    assert Lower(RUST.language) == "rust";
    assert OccursAt(Lower(RUST.language), q, 0);
    var items := [RUST];
    assert items[..0] == [];
    assert ShownCards(items, q, ALL_EVENTS) == [RUST_CARD];
  }
  /** The query is lower-cased too, so "RUST" finds the same card. */
  lemma SearchIgnoresCase()
    ensures View([RUST], Lower("RUST"), ALL_EVENTS) == [CardNode(RUST_CARD)]
  {
    var q := Lower("RUST");
    assert q == "rust" by {
      assert q[0] == 'r' && q[1] == 'u' && q[2] == 's' && q[3] == 't';
    }
    assert Lower("rust") == "rust" by {
      var r := Lower("rust");
      assert r[0] == 'r' && r[1] == 'u' && r[2] == 's' && r[3] == 't';
    }
    SearchByLanguage();
  }


  /** Selecting `push` with an empty query shows the same card and row. */
  lemma FilterByEvent()
    ensures View([RUST], [], "push") == [CardNode(RUST_CARD)]
  {
    assert HasEvent(RUST.subjects, "push") by {
      assert RUST.subjects[0].event == "push";
    }
    assert "push" != ALL_EVENTS by {
      assert |"push"| != |ALL_EVENTS|;
    }
    assert SelectRows(RUST.subjects, "push") == RUST.subjects by {
      assert RUST.subjects[..0] == [];
    }
    var items := [RUST];
    assert items[..0] == [];
    assert ShownCards(items, [], "push") == [RUST_CARD];
  }

  /** An entry without `push` is hidden when `push` is selected. */
  lemma FilterHidesMissingKey()
    ensures View([Entry("Go", [Pair("pull", "x")])], [], "push") == [NoResults]
  {
    var items := [Entry("Go", [Pair("pull", "x")])];
    assert "push" != ALL_EVENTS by {
      assert |"push"| != |ALL_EVENTS|;
    }
    assert "pull" != "push" by {
      assert "pull"[2] != "push"[2];
    }
    assert !HasEvent(items[0].subjects, "push");
    assert items[..0] == [];
    assert ShownCards(items, [], "push") == [];
  }

  /** A query matching nothing leaves only the placeholder. */
  lemma NothingMatches()
    ensures View([RUST], Lower("zzz"), ALL_EVENTS) == [NoResults]
  {
    var q := Lower("zzz");
    assert q == "zzz";
    assert Lower(RUST.language) == "rust";
    NotContained(Lower(RUST.language), q);
    assert Lower(RUST.subjects[0].line) == "new commit";
    NotContained(Lower(RUST.subjects[0].line), q);
    assert !SubjectContains(RUST.subjects, q);
    var items := [RUST];
    assert items[..0] == [];
    assert ShownCards(items, q, ALL_EVENTS) == [];
  }

  /** The export of the example with an empty query and the sentinel: the
      header line, a newline, and the one data line. */
  lemma ExportExample()
    ensures CsvText([RUST], ALL_EVENTS, []) == HEADER_LINE + "\n" + "\"Rust\",\"push\",\"New commit\""
  {
    var items := [RUST];
    var row := ["Rust", "push", "New commit"];
    assert CsvRows(items, ALL_EVENTS, []) == [row] by {
      assert items[..0] == [];
      assert EntryCsv(RUST, ALL_EVENTS, []) == [row];
    }
    HeaderFirst(items, ALL_EVENTS, []);
    assert Serialize([row], QUOTE_AS_WRITTEN) == "\"Rust\",\"push\",\"New commit\"" by {
      ExampleLine(row);
    }
  }

  /** The data line of the example. */
  lemma ExampleLine(row: seq<string>)
    requires row == ["Rust", "push", "New commit"]
    ensures Serialize([row], QUOTE_AS_WRITTEN) == "\"Rust\",\"push\",\"New commit\""
  {
    ThreeFields(row);
    ExampleLineSpelled();
  }

  /** The data line of the example, spelled out field by field so that each
      literal comparison stays a small proof obligation. */
  lemma ExampleLineSpelled()
    ensures "\"" + "Rust" + "\"" + "," + ("\"" + "push" + "\"" + "," + ("\"" + "New commit" + "\""))
      == "\"Rust\",\"push\",\"New commit\""
  {
    assert "\"" + "Rust" + "\"" + "," == "\"Rust\",";
    assert "\"" + "push" + "\"" + "," == "\"push\",";
    assert "\"" + "New commit" + "\"" == "\"New commit\"";
  }
}

/** What `render` and `buildCard` put on the page, as data: one card per
    shown entry, in dataset order, or a single placeholder when none is shown. */
module Render {
  import opened Dataset
  import opened Filter

  /** A card: the language heading, the badge count and the table rows. */
  datatype Card = Card(language: string, badge: nat, rows: seq<Pair>)

  /** One child of the content container. */
  datatype Node = CardNode(card: Card) | NoResults

  /** `buildCard`: the badge counts every subject of the entry, while the rows
      follow the row filter. The query plays no part. */
  function BuildCard(e: Entry, sel: string): (c: Card)
    ensures c.language == e.language
    ensures c.badge == |e.subjects|
    ensures |c.rows| <= c.badge
    ensures sel == ALL_EVENTS ==> c.rows == e.subjects
    ensures sel != ALL_EVENTS ==> forall p :: p in c.rows <==> p in e.subjects && p.event == sel
  {
    Card(e.language, |e.subjects|, SelectRows(e.subjects, sel))
  }

  /** The positions of the rendered entries: increasing, and exactly those
      whose entry passes the filter. */
  function ShownIndices(items: seq<Entry>, q: string, sel: string): (r: seq<nat>)
    ensures forall k :: 0 <= k < |r| ==> r[k] < |items|
    ensures forall k, l :: 0 <= k < l < |r| ==> r[k] < r[l]
    ensures forall i :: 0 <= i < |items| ==> (i in r <==> Shown(items[i], q, sel))
    decreases |items|
  {
    if items == [] then []
    else
      var n := |items| - 1;
      ShownIndices(items[..n], q, sel) + (if Shown(items[n], q, sel) then [n] else [])
  }

  /** The cards the `forEach` of `render` appends, in dataset order. */
  function ShownCards(items: seq<Entry>, q: string, sel: string): seq<Card>
    decreases |items|
  {
    if items == [] then []
    else
      var n := |items| - 1;
      ShownCards(items[..n], q, sel) + (if Shown(items[n], q, sel) then [BuildCard(items[n], sel)] else [])
  }

  /** The cards wrapped as page nodes. */
  function CardNodes(cards: seq<Card>): (r: seq<Node>)
    ensures |r| == |cards|
    ensures forall k :: 0 <= k < |cards| ==> r[k] == CardNode(cards[k])
  {
    seq(|cards|, k requires 0 <= k < |cards| => CardNode(cards[k]))
  }

  /** One more entry adds its card exactly when it is shown. */
  lemma ShownCardsStep(items: seq<Entry>, i: nat, q: string, sel: string)
    requires i < |items|
    ensures ShownCards(items[..i + 1], q, sel) ==
      ShownCards(items[..i], q, sel) + (if Shown(items[i], q, sel) then [BuildCard(items[i], sel)] else [])
  {
    assert items[..i + 1][..i] == items[..i];
  }

  /** Wrapping one more card appends one card node. */
  lemma CardNodesAppend(cards: seq<Card>, c: Card)
    ensures CardNodes(cards + [c]) == CardNodes(cards) + [CardNode(c)]
  {
  }

  /** The content container after a render pass: the cards, followed by the
      placeholder when the `shown` counter stayed at zero. */
  function View(items: seq<Entry>, q: string, sel: string): seq<Node>
  {
    var cards := ShownCards(items, q, sel);
    CardNodes(cards) + (if |cards| == 0 then [NoResults] else [])
  }

  /** The rendered cards are, in order, the cards of the entries at the shown
      positions: card k is built from entry ShownIndices[k]. */
  lemma {:induction false} ShownCardsInOrder(items: seq<Entry>, q: string, sel: string)
    ensures |ShownCards(items, q, sel)| == |ShownIndices(items, q, sel)|
    ensures forall k :: 0 <= k < |ShownCards(items, q, sel)| ==>
      ShownCards(items, q, sel)[k] == BuildCard(items[ShownIndices(items, q, sel)[k]], sel)
    decreases |items|
  {
    if items != [] {
      var n := |items| - 1;
      ShownCardsInOrder(items[..n], q, sel);
      var init := items[..n];
      assert forall i :: 0 <= i < n ==> init[i] == items[i];
    }
  }

  /** With one entry per language, the rendered cards carry pairwise different
      languages: no language gets two cards. */
  lemma ShownLanguagesDistinct(items: seq<Entry>, q: string, sel: string)
    requires DistinctLanguages(items)
    ensures forall k, l :: 0 <= k < l < |ShownCards(items, q, sel)| ==>
      ShownCards(items, q, sel)[k].language != ShownCards(items, q, sel)[l].language
  {
    ShownCardsInOrder(items, q, sel);
  }

  /** Entry i of the dataset is rendered, as the card built from it, exactly when
      it passes both predicates; the card then carries the full subject count. */
  lemma RenderedIff(items: seq<Entry>, q: string, sel: string, i: nat)
    requires i < |items|
    ensures Shown(items[i], q, sel) <==>
      exists k :: 0 <= k < |ShownIndices(items, q, sel)| && ShownIndices(items, q, sel)[k] == i
    ensures Shown(items[i], q, sel) ==> BuildCard(items[i], sel) in ShownCards(items, q, sel)
  {
    ShownCardsInOrder(items, q, sel);
    var idx := ShownIndices(items, q, sel);
    if Shown(items[i], q, sel) {
      var k :| 0 <= k < |idx| && idx[k] == i;
      assert ShownCards(items, q, sel)[k] == BuildCard(items[i], sel);
    }
  }

  /** Every rendered card comes from an entry that passes the filter, and its
      badge is that entry's full subject count whatever the selector. */
  lemma CardsComeFromShownEntries(items: seq<Entry>, q: string, sel: string, c: Card)
    requires c in ShownCards(items, q, sel)
    ensures exists i :: 0 <= i < |items| && Shown(items[i], q, sel) && c == BuildCard(items[i], sel)
    ensures exists i :: 0 <= i < |items| && c.language == items[i].language && c.badge == |items[i].subjects|
  {
    ShownCardsInOrder(items, q, sel);
    var cards := ShownCards(items, q, sel);
    var idx := ShownIndices(items, q, sel);
    var k :| 0 <= k < |cards| && cards[k] == c;
    assert idx[k] in idx;
  }

  /** With a specific event selected and distinct keys, every card has exactly
      one row, the one for that event. */
  lemma OneRowPerCard(items: seq<Entry>, q: string, sel: string)
    requires sel != ALL_EVENTS
    requires WellFormed(items)
    ensures forall c :: c in ShownCards(items, q, sel) ==> |c.rows| == 1 && c.rows[0].event == sel
  {
    forall c | c in ShownCards(items, q, sel)
      ensures |c.rows| == 1 && c.rows[0].event == sel
    {
      CardsComeFromShownEntries(items, q, sel, c);
      var i :| 0 <= i < |items| && Shown(items[i], q, sel) && c == BuildCard(items[i], sel);
      SingleRow(items[i], q, sel);
    }
  }

  /** Under the sentinel a card has an empty table exactly when its entry has
      no subjects, i.e. when its badge is zero. */
  lemma EmptyTableOnlyWithoutSubjects(items: seq<Entry>, q: string)
    ensures forall c :: c in ShownCards(items, q, ALL_EVENTS) ==> (c.rows == [] <==> c.badge == 0)
  {
    forall c | c in ShownCards(items, q, ALL_EVENTS)
      ensures c.rows == [] <==> c.badge == 0
    {
      CardsComeFromShownEntries(items, q, ALL_EVENTS, c);
    }
  }

  /** The placeholder appears exactly when no entry passes the filter; it is then
      the only node, and otherwise every node is a card. */
  lemma PlaceholderIff(items: seq<Entry>, q: string, sel: string)
    ensures NoResults in View(items, q, sel) <==> forall i :: 0 <= i < |items| ==> !Shown(items[i], q, sel)
    ensures NoResults in View(items, q, sel) ==> View(items, q, sel) == [NoResults]
    ensures NoResults !in View(items, q, sel) ==> forall nd :: nd in View(items, q, sel) ==> nd.CardNode?
  {
    ShownCardsInOrder(items, q, sel);
    var idx := ShownIndices(items, q, sel);
    var cards := ShownCards(items, q, sel);
    if |cards| == 0 {
      assert View(items, q, sel) == [NoResults];
    } else {
      assert idx[0] in idx;
      assert NoResults !in CardNodes(cards);
    }
  }

  /** The rows of every table on the page, as `(language, event, subject)`
      triples, card after card. */
  function CardRows(cards: seq<Card>): seq<seq<string>>
    decreases |cards|
  {
    if cards == [] then []
    else
      var n := |cards| - 1;
      CardRows(cards[..n]) + EntryRows(cards[n].language, cards[n].rows)
  }

  /** One triple per pair of a table, in table order. */
  function EntryRows(language: string, pairs: seq<Pair>): (r: seq<seq<string>>)
    ensures |r| == |pairs|
    ensures forall k :: 0 <= k < |pairs| ==> r[k] == [language, pairs[k].event, pairs[k].line]
  {
    seq(|pairs|, k requires 0 <= k < |pairs| => [language, pairs[k].event, pairs[k].line])
  }

  /** The number of table rows over a list of cards. */
  function RowTotal(cards: seq<Card>): nat
    decreases |cards|
  {
    if cards == [] then 0 else RowTotal(cards[..|cards| - 1]) + |cards[|cards| - 1].rows|
  }

  /** One triple per table row of the given cards. */
  lemma {:induction false} CardRowsCount(cards: seq<Card>)
    ensures |CardRows(cards)| == RowTotal(cards)
    decreases |cards|
  {
    if cards != [] {
      CardRowsCount(cards[..|cards| - 1]);
    }
  }

  /** The cards present among the page's nodes; the placeholder has none. */
  function NodeCards(nodes: seq<Node>): (r: seq<Card>)
    ensures |r| <= |nodes|
    decreases |nodes|
  {
    if nodes == [] then []
    else
      var n := |nodes| - 1;
      NodeCards(nodes[..n]) + (if nodes[n].CardNode? then [nodes[n].card] else [])
  }

  /** Reading the cards back off the rendered page gives the shown cards. */
  lemma ViewCards(items: seq<Entry>, q: string, sel: string)
    ensures NodeCards(View(items, q, sel)) == ShownCards(items, q, sel)
  {
    var cards := ShownCards(items, q, sel);
    NodeCardsOfCardNodes(cards);
    if |cards| == 0 {
      assert View(items, q, sel) == [NoResults];
      assert View(items, q, sel)[..0] == [];
    } else {
      assert View(items, q, sel) == CardNodes(cards);
    }
  }

  /** Wrapping cards as nodes and reading them back is the identity. */
  lemma {:induction false} NodeCardsOfCardNodes(cards: seq<Card>)
    ensures NodeCards(CardNodes(cards)) == cards
    decreases |cards|
  {
    if cards != [] {
      var n := |cards| - 1;
      NodeCardsOfCardNodes(cards[..n]);
      assert CardNodes(cards)[..n] == CardNodes(cards[..n]);
    }
  }
}

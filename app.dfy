/** The page: the loaded dataset, the two controls (search box and event
    selector), the option list of the selector and the content container.
    `render` runs once at start-up and again on every `input` and `change`
    event; the download button exports the current view. */
module App {
  import opened Text
  import opened Dataset
  import opened Filter
  import opened Render
  import opened Csv

  class Page {
    const data: Data
    var search: string
    var selector: string
    var options: seq<string>
    var content: seq<Node>

    /** Between events the selector offers the sentinel and then the event
        types, its value is one of them, and the container shows the view for
        the current controls. */
    ghost predicate Valid()
      reads this
    {
      && options == EventOptions(data.eventTypes)
      && selector in options
      && content == View(data.items, Lower(search), selector)
    }

    /** Start-up: fill the selector, select the sentinel, render once. The
        search box is never cleared, so it holds whatever text it has when
        the data arrives. */
    constructor (d: Data, initialSearch: string)
      ensures data == d && search == initialSearch && selector == ALL_EVENTS
      ensures Valid()
    {
      data := d;
      search := initialSearch;
      selector := ALL_EVENTS;
      options := [];
      content := [];
      new;
      var evts := [ALL_EVENTS] + d.eventTypes;
      for i := 0 to |evts|
        invariant options == evts[..i]
        invariant search == initialSearch && selector == ALL_EVENTS
      {
        options := options + [evts[i]];
      }
      assert evts[..|evts|] == evts;
      EventOptionsMembership(d.eventTypes, ALL_EVENTS);
      Render();
    }

    /** `render`: clear the container, append a card for every entry passing
        both predicates, and the placeholder when none did. */
    method Render()
      modifies this`content
      ensures content == View(data.items, Lower(search), selector)
    {
      var q := Lower(search);
      var items := data.items;
      content := [];
      var shown := 0;
      for i := 0 to |items|
        invariant content == CardNodes(ShownCards(items[..i], q, selector))
        invariant shown == |ShownCards(items[..i], q, selector)|
      {
        var item := items[i];
        var langText := Lower(item.language);
        var matchesSearch := q == [] || Contains(langText, q) || SubjectContains(item.subjects, q);
        var matchesEvent := selector == ALL_EVENTS || HasEvent(item.subjects, selector);
        ShownCardsStep(items, i, q, selector);
        if matchesSearch && matchesEvent {
          shown := shown + 1;
          CardNodesAppend(ShownCards(items[..i], q, selector), BuildCard(item, selector));
          content := content + [CardNode(BuildCard(item, selector))];
        }
      }
      assert items[..|items|] == items;
      if shown == 0 {
        content := content + [NoResults];
      }
    }

    /** The search box's `input` event. */
    method OnSearchInput(value: string)
      requires Valid()
      modifies this`search, this`content
      ensures search == value && selector == old(selector)
      ensures Valid()
    {
      search := value;
      Render();
    }

    /** The selector's `change` event; the browser only ever reports one of
        the listed options. */
    method OnFilterChange(value: string)
      requires Valid() && value in options
      modifies this`selector, this`content
      ensures selector == value && search == old(search)
      ensures Valid()
    {
      selector := value;
      Render();
      assert selector in options;
    }

    /** The download button: the export for the current controls, which holds
        exactly the rows of the cards on the page, in page order. */
    method DownloadCsv() returns (csv: string)
      ensures csv == CsvText(data.items, selector, Lower(search))
      ensures Valid() ==> csv == Serialize([HEADER] + CardRows(NodeCards(content)), QUOTE_AS_WRITTEN)
    {
      var q := Lower(search);
      csv := ToCsv(data.items, selector, q);
      ViewCards(data.items, q, selector);
      CsvMatchesRender(data.items, selector, q);
    }
  }
}

/** The document the viewer loads once at startup: a list of event types and,
    per programming language, the subject line for each event. */
module Dataset {

  /** One `(event, subject)` entry of a language's `subjects` object. */
  datatype Pair = Pair(event: string, line: string)

  /** One element of `items`: a language and its subjects in document order. */
  datatype Entry = Entry(language: string, subjects: seq<Pair>)

  /** The whole document: `eventTypes` and `items`. */
  datatype Data = Data(eventTypes: seq<string>, items: seq<Entry>)

  /** The selector value that stands for "no event filter". */
  const ALL_EVENTS: string := "(All event types)"

  /** The entry has a subject for this event key. */
  predicate HasEvent(pairs: seq<Pair>, key: string)
  {
    exists i :: 0 <= i < |pairs| && pairs[i].event == key
  }

  /** The keys of a subjects object are pairwise distinct. */
  predicate UniqueEvents(pairs: seq<Pair>)
  {
    forall i, j :: 0 <= i < j < |pairs| ==> pairs[i].event != pairs[j].event
  }

  /** Every entry of the dataset is a proper object: no key twice. */
  predicate WellFormed(items: seq<Entry>)
  {
    forall i :: 0 <= i < |items| ==> UniqueEvents(items[i].subjects)
  }

  /** No language appears twice in `items`. */
  predicate DistinctLanguages(items: seq<Entry>)
  {
    forall i, j :: 0 <= i < j < |items| ==> items[i].language != items[j].language
  }

  /** The options of the event selector: the sentinel, then the event types
      in document order. */
  function EventOptions(eventTypes: seq<string>): (r: seq<string>)
    ensures |r| == |eventTypes| + 1
    ensures r[0] == ALL_EVENTS
    ensures forall k :: 0 <= k < |eventTypes| ==> r[k + 1] == eventTypes[k]
  {
    [ALL_EVENTS] + eventTypes
  }

  /** An option is offered exactly when it is the sentinel or a declared event type. */
  lemma EventOptionsMembership(eventTypes: seq<string>, t: string)
    ensures t in EventOptions(eventTypes) <==> t == ALL_EVENTS || t in eventTypes
  {
    var r := EventOptions(eventTypes);
    if t in r && t != ALL_EVENTS {
      var k :| 0 <= k < |r| && r[k] == t;
      assert eventTypes[k - 1] == t;
    }
    if t in eventTypes {
      var k :| 0 <= k < |eventTypes| && eventTypes[k] == t;
      assert r[k + 1] == t;
    }
  }
}

/** The view filter: which entries the current query and event selector let
    through, and which of an entry's rows are kept. The query `q` is always
    the already lower-cased text of the search box. */
module Filter {
  import opened Text
  import opened Dataset

  /** Some subject line of the entry, lower-cased, contains q. All subjects are
      searched, not only those the event selector keeps. */
  predicate SubjectContains(pairs: seq<Pair>, q: string)
  {
    exists i :: 0 <= i < |pairs| && Contains(Lower(pairs[i].line), q)
  }

  /** The search predicate: empty query, or a match in the language name, or a
      match in any subject line. */
  predicate SearchMatches(e: Entry, q: string)
  {
    q == [] || Contains(Lower(e.language), q) || SubjectContains(e.subjects, q)
  }

  /** The entry-level event predicate: the sentinel, or the entry has the key. */
  predicate EventMatches(e: Entry, sel: string)
  {
    sel == ALL_EVENTS || HasEvent(e.subjects, sel)
  }

  /** An entry is rendered when both predicates hold. */
  predicate Shown(e: Entry, q: string, sel: string)
  {
    SearchMatches(e, q) && EventMatches(e, sel)
  }

  /** `entries.filter(([evt]) => evt === key)`: the pairs with this event, in order. */
  function WithEvent(pairs: seq<Pair>, key: string): (r: seq<Pair>)
    ensures |r| <= |pairs|
    ensures forall p :: p in r <==> p in pairs && p.event == key
    ensures r == [] <==> !HasEvent(pairs, key)
    decreases |pairs|
  {
    if pairs == [] then []
    else
      var last := pairs[|pairs| - 1];
      assert forall p :: p in pairs <==> p in pairs[..|pairs| - 1] || p == last;
      WithEvent(pairs[..|pairs| - 1], key) + (if last.event == key then [last] else [])
  }

  /** The row filter of a card: every pair under the sentinel, otherwise only
      the pairs whose event is the selected one. */
  function SelectRows(pairs: seq<Pair>, sel: string): (r: seq<Pair>)
    ensures |r| <= |pairs|
    ensures sel == ALL_EVENTS ==> r == pairs
    ensures sel != ALL_EVENTS ==> forall p :: p in r <==> p in pairs && p.event == sel
  {
    if sel == ALL_EVENTS then pairs else WithEvent(pairs, sel)
  }

  /** With distinct keys, filtering by a key that is present yields exactly the
      one pair carrying it. */
  lemma {:induction false} WithEventUnique(pairs: seq<Pair>, j: nat)
    requires UniqueEvents(pairs)
    requires j < |pairs|
    ensures WithEvent(pairs, pairs[j].event) == [pairs[j]]
    decreases |pairs|
  {
    var n := |pairs| - 1;
    var key := pairs[j].event;
    var init := pairs[..n];
    assert UniqueEvents(init);
    if j == n {
      assert WithEvent(init, key) == [] by {
        assert !HasEvent(init, key);
      }
      assert WithEvent(pairs, key) == WithEvent(init, key) + [pairs[n]];
    } else {
      assert WithEvent(init, key) == [pairs[j]] by {
        assert init[j] == pairs[j];
        WithEventUnique(init, j);
      }
      assert pairs[n].event != key;
      assert WithEvent(pairs, key) == WithEvent(init, key);
    }
  }

  /** Under a specific selector, a rendered entry with distinct keys gets exactly
      one row: the pair with the selected event. */
  lemma SingleRow(e: Entry, q: string, sel: string)
    requires sel != ALL_EVENTS
    requires UniqueEvents(e.subjects)
    requires Shown(e, q, sel)
    ensures |SelectRows(e.subjects, sel)| == 1
    ensures SelectRows(e.subjects, sel)[0] in e.subjects
    ensures SelectRows(e.subjects, sel)[0].event == sel
  {
    var j :| 0 <= j < |e.subjects| && e.subjects[j].event == sel;
    WithEventUnique(e.subjects, j);
  }

  /** An entry without the selected key contributes no rows at all: the
      row filter alone already hides it. */
  lemma NoRowsWithoutEvent(e: Entry, sel: string)
    requires !EventMatches(e, sel)
    ensures SelectRows(e.subjects, sel) == []
  {
  }
}

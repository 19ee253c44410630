/**
 * Topic filtering of search results (`filter_by_topics`).  A result list may
 * hold semantic hits `(score, phrase_full, topics)`, keyword hits
 * `(phrase_full, topics)`, or anything else; the filter keeps, in order and
 * unchanged, the hits of either tuple shape that share a topic with the
 * selection, and drops everything else.  An empty selection keeps the list
 * as it is.
 */
module Topics {

  /** One element of a result list, by its shape. */
  datatype Item =
    | Scored(score: real, phraseFull: string, topics: seq<string>)   // a 3-tuple
    | Unscored(phraseFull: string, topics: seq<string>)              // a 2-tuple
    | OtherShape                                                    // any other value

  /** `set(topics) & set(selected_topics)` is non-empty. */
  predicate SharesTopic(topics: seq<string>, selected: seq<string>) {
    exists t :: t in topics && t in selected
  }

  /** Whether the loop appends this item when the selection is non-empty. */
  predicate Keeps(item: Item, selected: seq<string>) {
    match item
    case Scored(_, _, topics) => SharesTopic(topics, selected)
    case Unscored(_, topics) => SharesTopic(topics, selected)
    case OtherShape => false
  }

  /** The items the loop appends, in order: what `filtered` holds after the loop. */
  function Kept(items: seq<Item>, selected: seq<string>): (kept: seq<Item>) {
    if items == [] then []
    else
      var last := items[|items| - 1];
      Kept(items[..|items| - 1], selected) + (if Keeps(last, selected) then [last] else [])
  }

  /** `filter_by_topics(results, selected_topics)` as a value. */
  function TopicFilter(items: seq<Item>, selected: seq<string>): (filtered: seq<Item>) {
    if selected == [] then items else Kept(items, selected)
  }

  /**
   * `filter_by_topics`: returns the results themselves for an empty selection,
   * otherwise appends each 3- or 2-tuple whose topics meet the selection.
   */
  method FilterByTopics(results: seq<Item>, selected: seq<string>) returns (filtered: seq<Item>)
    ensures filtered == TopicFilter(results, selected)
    ensures selected == [] ==> filtered == results
  {
    if selected == [] {
      return results;
    }
    filtered := [];
    for i := 0 to |results|
      invariant filtered == Kept(results[..i], selected)
    {
      assert results[..i + 1][..i] == results[..i];
      match results[i]
      case Scored(score, phrase, topics) =>
        if SharesTopic(topics, selected) {
          filtered := filtered + [Scored(score, phrase, topics)];
        }
      case Unscored(phrase, topics) =>
        if SharesTopic(topics, selected) {
          filtered := filtered + [Unscored(phrase, topics)];
        }
      case OtherShape =>
    }
    assert results[..|results|] == results;
  }

  /**
   * An item is kept exactly when it is in the input, is a 3- or 2-tuple, and
   * shares a topic with the selection; other shapes never survive.
   */
  lemma {:induction false} KeptMembers(items: seq<Item>, selected: seq<string>)
    ensures |Kept(items, selected)| <= |items|
    ensures forall x :: x in Kept(items, selected) <==> x in items && Keeps(x, selected)
  {
    if items != [] {
      var n := |items| - 1;
      KeptMembers(items[..n], selected);
      assert items == items[..n] + [items[n]];
    }
  }

  /** The filter preserves order: filtering a concatenation concatenates the filtered parts. */
  lemma {:induction false} KeptAppend(a: seq<Item>, b: seq<Item>, selected: seq<string>)
    ensures Kept(a + b, selected) == Kept(a, selected) + Kept(b, selected)
    decreases |b|
  {
    if b == [] {
      assert a + b == a;
    } else {
      var n := |b| - 1;
      KeptAppend(a, b[..n], selected);
      assert (a + b)[..|a + b| - 1] == a + b[..n];
    }
  }

  /** A list whose every item passes the filter comes through unchanged. */
  lemma {:induction false} KeptAllKept(items: seq<Item>, selected: seq<string>)
    requires forall k :: 0 <= k < |items| ==> Keeps(items[k], selected)
    ensures Kept(items, selected) == items
  {
    if items != [] {
      var n := |items| - 1;
      KeptAllKept(items[..n], selected);
      assert items == items[..n] + [items[n]];
    }
  }

  /** Filtering twice by the same selection is filtering once. */
  lemma TopicFilterIdempotent(items: seq<Item>, selected: seq<string>)
    ensures TopicFilter(TopicFilter(items, selected), selected) == TopicFilter(items, selected)
  {
    if selected != [] {
      var once := Kept(items, selected);
      KeptMembers(items, selected);
      assert forall k :: 0 <= k < |once| ==> once[k] in once;
      KeptAllKept(once, selected);
    }
  }
}

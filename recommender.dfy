/**
 * One press of the button, from the reply of the language model to the page:
 * extract the titles, then build a card per title in the three columns. The
 * reply and the catalog search are inputs here.
 */
module Recommender {
  import opened Wrappers
  import PyStr
  import BoldScan
  import NumberedLines
  import opened Posters

  /**
   * The page for one answer of the language model: the answer is stripped of
   * surrounding whitespace, its titles are extracted and each gets its card.
   * The column error happens exactly when the bold path finds more than three
   * titles; the fallback never finds that many.
   */
  function Recommend(content: string, search: string -> seq<SearchResult>): (page: Page)
    ensures var reply := PyStr.Strip(content);
      page.error.Some? <==> Columns < |BoldScan.BoldTitles(reply)|
    ensures page.error.Some? ==> page.error.value == ColumnErrorMessage
    ensures |page.cards| <= Columns
  {
    var reply := PyStr.Strip(content);
    Render(NumberedLines.ExtractTitles(reply), search)
  }

  /**
   * A reply that lists four plain suggestions in bold: the first three get
   * their cards, in order, and the fourth raises the column error.
   */
  lemma FourBoldTitles(items: seq<BoldScan.Suggestion>, search: string -> seq<SearchResult>)
    requires |items| == 4
    requires forall i :: 0 <= i < |items| ==> BoldScan.Plain(items[i])
    ensures var page := Recommend(BoldScan.Listing(items), search);
      && page.error == Some(ColumnErrorMessage)
      && |page.cards| == 3
      && forall k :: 0 <= k < 3 ==> page.cards[k] == MakeCard(items[k].title, search(items[k].title))
  {
    var content := BoldScan.Listing(items);
    assert content[0] == '*';
    BoldScan.StripKeepsBoldTitles(content);
    BoldScan.ListingRoundTrip(items);
    assert BoldScan.BoldTitles(PyStr.Strip(content)) == BoldScan.Titles(items);
  }
}

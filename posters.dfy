/**
 * The per-title card: the first catalog search result for the title gives the
 * poster image and the release year; an empty result list gives a
 * "not found" card. Cards go into a fixed row of three columns.
 */
module Posters {
  import opened Wrappers

  /**
   * One record of the catalog search. `posterPath` is `None` when the field is
   * missing or null; `releaseDate` is `None` when the field is missing.
   */
  datatype SearchResult = SearchResult(posterPath: Option<string>, releaseDate: Option<string>)

  /** What is shown for one title. */
  datatype Card =
    | Found(title: string, imageUrl: Option<string>, releaseYear: string)
    | NotFound(title: string)

  /** What the page ends up with: the cards written so far, and the error shown, if any. */
  datatype Page = Page(cards: seq<Card>, error: Option<string>)

  const ImageBase := "https://image.tmdb.org/t/p/w500"

  /** The layout has this many columns, and a column is addressed by the title's index. */
  const Columns := 3

  /** The catch-all's message for the index error raised by a fourth column. */
  const ColumnErrorMessage := "Something went wrong: list index out of range"

  /** The image URL: the fixed prefix and the poster path, when the path is present and not empty. */
  function ImageUrl(posterPath: Option<string>): (url: Option<string>)
    ensures url.Some? <==> posterPath.Some? && posterPath.value != ""
    ensures url.Some? ==> ImageBase <= url.value && url.value[|ImageBase|..] == posterPath.value
  {
    if posterPath.Some? && posterPath.value != "" then Some(ImageBase + posterPath.value) else None
  }

  /** The release year: the first (at most) four characters of the release date, `""` when it is missing. */
  function ReleaseYear(releaseDate: Option<string>): (year: string)
    ensures year <= releaseDate.GetOr("")
    ensures |year| == if |releaseDate.GetOr("")| < 4 then |releaseDate.GetOr("")| else 4
  {
    var date := releaseDate.GetOr("");
    if |date| <= 4 then date else date[..4]
  }

  /** The card for `title`, built from the first of its search results. */
  function MakeCard(title: string, results: seq<SearchResult>): (card: Card)
    ensures card.title == title
    ensures card.NotFound? <==> results == []
    ensures card.Found? ==>
      card.imageUrl == ImageUrl(results[0].posterPath) && card.releaseYear == ReleaseYear(results[0].releaseDate)
  {
    if results != [] then
      var movie := results[0];
      Found(title, ImageUrl(movie.posterPath), ReleaseYear(movie.releaseDate))
    else
      NotFound(title)
  }

  /** Only the first result matters: results after it never change the card. */
  lemma FirstResultOnly(title: string, first: SearchResult, rest1: seq<SearchResult>, rest2: seq<SearchResult>)
    ensures MakeCard(title, [first] + rest1) == MakeCard(title, [first] + rest2)
  {
    assert ([first] + rest1)[0] == first == ([first] + rest2)[0];
  }

  /**
   * The loop over the titles from column `column` on: each title is searched
   * (`search` stands for the catalog request) and its card goes into its own
   * column; a title with no column left raises the index error, which the
   * catch-all turns into the error message, after the earlier cards are shown.
   */
  function RenderFrom(titles: seq<string>, search: string -> seq<SearchResult>, column: nat): (page: Page)
    requires column <= Columns
    ensures |page.cards| == if |titles| < Columns - column then |titles| else Columns - column
    ensures forall k :: 0 <= k < |page.cards| ==> page.cards[k] == MakeCard(titles[k], search(titles[k]))
    ensures page.error.Some? <==> Columns - column < |titles|
    ensures page.error.Some? ==> page.error.value == ColumnErrorMessage
    decreases |titles|
  {
    if titles == [] then
      Page([], None)
    else if column == Columns then
      Page([], Some(ColumnErrorMessage))
    else
      var rest := RenderFrom(titles[1..], search, column + 1);
      Page([MakeCard(titles[0], search(titles[0]))] + rest.cards, rest.error)
  }

  /** The cards for the titles, from the first column. */
  function Render(titles: seq<string>, search: string -> seq<SearchResult>): (page: Page)
    ensures |page.cards| == if |titles| < Columns then |titles| else Columns
    ensures forall k :: 0 <= k < |page.cards| ==> page.cards[k] == MakeCard(titles[k], search(titles[k]))
    ensures page.error.Some? <==> Columns < |titles|
    ensures page.error.Some? ==> page.error.value == ColumnErrorMessage
  {
    RenderFrom(titles, search, 0)
  }
}

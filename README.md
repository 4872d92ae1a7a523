# Mood-based movie recommender: title extraction and poster cards

The recommender asks a language model for three movies that match a mood,
pulls the movie titles out of the model's answer, looks each title up in the
movie catalog and shows a card per title (poster, title, release year) in a
row of three columns. This project models the two pieces of that flow that
hold decision logic, both in `movierecommender.py`:

- **Title extraction** (lines 32-37). The answer is stripped of surrounding
  whitespace. Every `**…**` span is collected left to right, as Python's
  `re.findall(r"\*\*(.*?)\*\*", reply)` does: lazy, without overlap, and with no
  newline inside a span. Module `BoldScan` writes this pattern out as a scanner.
  When there is no such span, a fallback splits the answer into lines. For
  each line holding a `.`, it takes the text between the first and the second
  `.`, strips it, and cuts it before the first `(`. It keeps at most three
  such titles (module `NumberedLines`). The Python `str` operations this needs
  (`split` on one character, `strip`) are in module `PyStr`.
- **Cards** (lines 41-62). The first search result gives the card. Its image
  URL is the fixed prefix `https://image.tmdb.org/t/p/w500` plus
  `poster_path`, and is absent when the path is missing or empty. Its release
  year is the first four characters of `release_date`, or `""`. An empty
  result list gives a "not found" card. Cards go into three columns by the
  title's index. A fourth title raises an index error, and the catch-all turns
  it into the message `Something went wrong: list index out of range`. The
  cards already written stay on the page (module `Posters`).

Module `Recommender` composes the two. The catalog search is a parameter
`search: string -> seq<SearchResult>`, and the model's answer is an input
string.

Verify with
`dafny verify --resource-limit 2000000 --verification-time-limit 0 --warn-contradictory-assumptions *.dfy`.

## Model

| member | source | states |
|---|---|---|
| `PyStr.Split` | movierecommender.py:37 | `s.split(sep)`: at least one piece, no piece holds `sep`, joining the pieces with `sep` gives `s` back, and there are two or more pieces exactly when `sep` occurs in `s` |
| `PyStr.SplitJoin` | movierecommender.py:37 | splitting inverts joining, for pieces without the separator |
| `PyStr.FirstSeparator` | movierecommender.py:37 | splitting at a first separator gives the text before it, then the pieces of the rest |
| `PyStr.CutAt` | movierecommender.py:37 | `s.split(c)[0]` is the prefix of `s` before its first `c`: a prefix, free of `c`, followed by `c` or the end of `s` |
| `PyStr.SecondField` | movierecommender.py:37 | `s.split(c)[1]` is the text after the first `c`, cut before the next `c` |
| `PyStr.SecondFieldOf` | movierecommender.py:37 | the second `c`-field of `a`, `c`, `b` is `b`, when neither `a` nor `b` holds `c` |
| `PyStr.SecondFieldIs` | movierecommender.py:37 | with a single `c` at `i`, the second field is everything after `i` |
| `PyStr.CutAtIs` | movierecommender.py:37 | with the first `c` at `i`, the cut keeps exactly `i` characters |
| `PyStr.IndexOf` | movierecommender.py:37 | the position of the first occurrence of a character |
| `PyStr.TrimStart` | movierecommender.py:32 | removes exactly the leading whitespace: a suffix, everything removed is whitespace, and it starts with non-whitespace or is empty |
| `PyStr.TrimEnd` | movierecommender.py:32 | removes exactly the trailing whitespace (the mirror of `TrimStart`) |
| `PyStr.Strip` | movierecommender.py:32 | `strip()`: the result is no longer than the input, and neither of its ends is whitespace |
| `PyStr.StripExact` | movierecommender.py:37 | `strip()` removes exactly the whitespace padding: `Strip(a + r + b) == r` for whitespace `a`, `b` and unpadded `r` |
| `PyStr.StripLeadingSpace` | movierecommender.py:37 | one whitespace character before unpadded text is all that `strip` removes |
| `PyStr.StripBlank` | movierecommender.py:32 | text made only of whitespace strips to the empty string |
| `PyStr.TrimStartExact` | movierecommender.py:37 | whitespace before unpadded text is all that `lstrip` removes |
| `PyStr.TrimEndExact` | movierecommender.py:37 | whitespace after unpadded text is all that `rstrip` removes |
| `BoldScan.FindClose` | movierecommender.py:35 | the lazy `(.*?)` stops at the first `**` it can reach, and finds none when a newline or the end comes first |
| `BoldScan.MatchAt` | movierecommender.py:35 | the pattern matches at `p` exactly when a `**` starts there and a closing `**` follows before any newline; it returns the first such closing |
| `BoldScan.Scan` | movierecommender.py:35 | every span the scan reports lies at or after the starting position and inside the text, with its closing `**` at least two characters past its opening one |
| `BoldScan.ScanIsFindAll` | movierecommender.py:35 | the scan meets the characterisation `IsFindAll` of `findall`: each match is the leftmost one at or after the resume point, and scanning resumes just past its closing `**` |
| `BoldScan.ScanStep` | movierecommender.py:35 | after a match, the scan reports it and resumes just past its closing `**`, which lies inside the text |
| `BoldScan.ScanSkip` | movierecommender.py:35 | where nothing matches, the scan moves on by one position |
| `BoldScan.FindAllSpans` | movierecommender.py:35 | every reported span is a real match inside the text, and the spans come left to right without overlap |
| `BoldScan.FindAllUnique` | movierecommender.py:35 | the characterisation determines the result: any two sequences meeting it are equal |
| `BoldScan.LeftmostMatchFirst` | movierecommender.py:35 | no match is skipped: a match at `q` means a match is reported at or before `q` |
| `BoldScan.FirstCloseUnique` | movierecommender.py:35 | the lazy group has exactly one place to stop |
| `BoldScan.BoldTitles` | movierecommender.py:35 | one title per match of the scan, and no title holds a newline or a `**` |
| `BoldScan.BoldTitlesAreGroups` | movierecommender.py:35 | what each title is: the matches meet the characterisation of `findall`, and the i-th title is the text between the `**` pairs of the i-th match |
| `BoldScan.GroupIsShortest` | movierecommender.py:35 | the text of a match holds no newline and no `**` |
| `BoldScan.ListingRoundTrip` | movierecommender.py:35-36 | for an answer that lists suggestions with bold titles, the bold path gives back every title, in order, however many there are; nothing cuts it to three |
| `BoldScan.ScanListing` | movierecommender.py:35 | a listing after any prefix yields one match per suggestion, whose text is that suggestion's title |
| `BoldScan.ScanEntry` | movierecommender.py:35 | one listed suggestion yields one match, and the scan resumes after the suggestion |
| `BoldScan.EntryLayout` | movierecommender.py:35 | where the `**` pairs of a listed suggestion sit, and that its description holds no `*` |
| `BoldScan.EntryShape` | movierecommender.py:35 | a listed suggestion on its own is `**`, its title, `**`, then text without `*` |
| `BoldScan.ScanBoldThenPlain` | movierecommender.py:35 | `**`, plain text, `**`, then text without `*` gives one match, and the scan resumes after that text |
| `BoldScan.SkipPlain` | movierecommender.py:35 | positions that hold no `*` never start a match |
| `BoldScan.CloseAfterPlain` | movierecommender.py:35 | after plain characters, the next `**` closes the group |
| `BoldScan.EmptyTitleExample` | movierecommender.py:35 | `****` yields one empty title |
| `BoldScan.NewlineExample` | movierecommender.py:35 | a newline between the two `**` pairs prevents the match: `**a` then `b**` on the next line give no title |
| `BoldScan.StripKeepsBoldTitles` | movierecommender.py:32-35 | stripping the answer before the scan does not change its bold titles, when the answer does not start with whitespace |
| `BoldScan.DropTail` | movierecommender.py:35 | text without `*` appended to the answer changes none of its bold titles |
| `BoldScan.ScanDropTail` | movierecommender.py:35 | text without `*` appended to the answer leaves every scan from every position unchanged |
| `BoldScan.MatchAtDropTail` | movierecommender.py:35 | text without `*` appended to the answer does not change whether, or where, a match at `p` closes |
| `BoldScan.FindCloseDropTail` | movierecommender.py:35 | text without `*` appended to the answer does not change where a group closes |
| `BoldScan.SpacesHoldNoStar` | movierecommender.py:32 | the whitespace that `strip` removes holds no `*` |
| `BoldScan.NoStarNoClose` | movierecommender.py:35 | with no `*` ahead, a group cannot close |
| `NumberedLines.LineTitle` | movierecommender.py:37 | the fallback title of a line: no `.` and no `(` in it, and it does not start with whitespace (it may end with whitespace) |
| `NumberedLines.DottedTitles` | movierecommender.py:37 | never more titles than lines, and no title holds a `.` or a `(` |
| `NumberedLines.DottedTitlesAppend` | movierecommender.py:37 | the titles keep the order of the lines: the titles of two runs of lines are the titles of the first run, then those of the second |
| `NumberedLines.DottedTitlesOne` | movierecommender.py:37 | a single line gives its `LineTitle` when it holds a `.`, and no title otherwise; with `DottedTitlesAppend` this fixes the titles of every list of lines |
| `NumberedLines.DottedTitleIncluded` | movierecommender.py:37 | the title of every line that holds a `.` is among the dotted-line titles |
| `NumberedLines.FallbackTitles` | movierecommender.py:37 | the fallback keeps a prefix of the dotted-line titles, of length `min(3, count)` |
| `NumberedLines.ExtractTitles` | movierecommender.py:35-37 | the bold titles, all of them, when there is at least one; otherwise the fallback titles, at most three |
| `NumberedLines.InceptionExample` | movierecommender.py:37 | the line `1. Inception (2010)` gives `Inception ` with a trailing space, because the cut comes after the strip |
| `NumberedLines.InceptionField` | movierecommender.py:37 | the second `.`-field of `1. Inception (2010)` is ` Inception (2010)` |
| `NumberedLines.InceptionStripped` | movierecommender.py:37 | stripping ` Inception (2010)` gives `Inception (2010)` |
| `NumberedLines.InceptionCut` | movierecommender.py:37 | cutting `Inception (2010)` before `(` gives `Inception ` |
| `Posters.ImageUrl` | movierecommender.py:49-50 | an image URL exists exactly when the poster path is present and not empty, and it is the fixed prefix followed by the path, which can be read back from it |
| `Posters.ReleaseYear` | movierecommender.py:51 | a prefix of the release date (`""` when the date is missing), of length `min(4, length)` |
| `Posters.MakeCard` | movierecommender.py:47-59 | the card carries the title; it is "not found" exactly when there are no results; otherwise its image and year come from the first result |
| `Posters.FirstResultOnly` | movierecommender.py:47-48 | results after the first never change the card |
| `Posters.RenderFrom` | movierecommender.py:41-62 | from a column on: one card per title while columns remain, in title order, each built from that title's own search; the column error happens exactly when titles outnumber the remaining columns |
| `Posters.Render` | movierecommender.py:41-62 | at most three cards, the k-th built from the k-th title; the error message appears exactly when there are more than three titles |
| `Recommender.Recommend` | movierecommender.py:32-62 | the page shows at most three cards; the column error happens exactly when the bold path finds more than three titles in the stripped answer, so the fallback never causes it |
| `Recommender.FourBoldTitles` | movierecommender.py:35-62 | an answer listing four bold titles gives cards for the first three, in order, then the error message |

## Left out

- Page setup, the input box, the button and the spinner (lines 12-21). The model starts when the button is pressed and the mood is non-empty.
- The prompt and the language-model call (lines 22-31). The answer text is an input of `Recommender.Recommend`.
- The request to the catalog and its JSON decoding (lines 44-45). They are the `search` parameter. The model assumes every search returns a result list. A failed request, a body that is not JSON, and a missing `results` key are not modelled. In the source, the catch-all turns each of these into an error message.
- A `release_date` that is present but null. In the source, slicing it raises a type error, which the catch-all reports. `Posters.ReleaseYear` treats a null date like a missing one.
- How cards are displayed (lines 53-59): the image widget, and the captions `**title** (year)` and `**title** – Poster not found.`. The model keeps what each card holds, not the markdown that renders it.
- API key loading (lines 9-10).
- Python regular expressions in general. Only the one fixed pattern `\*\*(.*?)\*\*` is modelled, as a scanner.
- BoldScan.StripKeepsBoldTitles: not proved for answers that start with whitespace. The statement is expected to hold for them too, but the proof does not cover that case.

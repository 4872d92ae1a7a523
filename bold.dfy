/**
 * The primary title extraction: Python's `re.findall(r"\*\*(.*?)\*\*", reply)`.
 *
 * The pattern is fixed, so it is written out as a scanner. A match starts at a
 * `**`; the lazy `.*?` then takes as few characters as it can, none of them a
 * newline, until the next `**`. `findall` tries each position left to right
 * and, after a match, resumes just past its closing `**`.
 *
 * Positions are absolute indices into the reply. A match is a `Span`: its
 * opening `**` at `open`, its closing `**` at `close`, its group
 * `reply[open + 2..close]`.
 */
module BoldScan {
  import opened Wrappers
  import PyStr

  datatype Span = Span(open: nat, close: nat)

  /** A `**` starts at position `p` of `s`. */
  predicate DoubleStarAt(s: string, p: int) {
    0 <= p && p + 2 <= |s| && s[p] == '*' && s[p + 1] == '*'
  }

  /** A `**` at `e` can close a group that starts at `k`: `.` matched every character in between. */
  ghost predicate CanCloseAt(s: string, k: nat, e: int) {
    k <= e && DoubleStarAt(s, e) && forall j :: k <= j < e ==> s[j] != '\n'
  }

  /** `e` is where the lazy `.*?` stops: the first `**` it can reach. */
  ghost predicate FirstCloseAt(s: string, k: nat, e: int) {
    CanCloseAt(s, k, e) && forall j :: k <= j < e ==> !DoubleStarAt(s, j)
  }

  /** The pattern matches at `p` with its closing `**` at `e`. */
  ghost predicate MatchesAt(s: string, p: nat, e: int) {
    DoubleStarAt(s, p) && FirstCloseAt(s, p + 2, e)
  }

  /** The pattern does not match at `p`, however far it may look. */
  ghost predicate NoMatchAt(s: string, p: nat) {
    DoubleStarAt(s, p) ==> NoCloseFrom(s, p + 2)
  }

  /** No `**` that a group starting at `k` could reach. */
  ghost predicate NoCloseFrom(s: string, k: nat) {
    forall e :: !CanCloseAt(s, k, e)
  }

  /**
   * The characterisation of `findall` from `p`: the first span is the leftmost
   * match at or after `p`, and the rest is `findall` from just past its closing `**`.
   */
  ghost predicate IsFindAll(s: string, p: nat, ms: seq<Span>)
    decreases |ms|
  {
    if ms == [] then
      forall q: nat :: p <= q ==> NoMatchAt(s, q)
    else
      && p <= ms[0].open
      && MatchesAt(s, ms[0].open, ms[0].close)
      && (forall q: nat :: p <= q < ms[0].open ==> NoMatchAt(s, q))
      && IsFindAll(s, ms[0].close + 2, ms[1..])
  }

  /** Where the lazy group starting at `k` closes, if it can. */
  function FindClose(s: string, k: nat): (e: Option<nat>)
    ensures e.Some? ==> FirstCloseAt(s, k, e.value)
    ensures e.None? ==> NoCloseFrom(s, k)
    decreases |s| - k
  {
    if |s| < k + 2 then None
    else if s[k] == '*' && s[k + 1] == '*' then Some(k)
    else if s[k] == '\n' then None
    else
      var e := FindClose(s, k + 1);
      assert forall e' :: CanCloseAt(s, k, e') ==> e' == k || CanCloseAt(s, k + 1, e');
      e
  }

  /** The closing `**` of the match at `p`, or `None` when the pattern does not match there. */
  function MatchAt(s: string, p: nat): (e: Option<nat>)
    ensures e.Some? ==> MatchesAt(s, p, e.value)
    ensures e.None? ==> NoMatchAt(s, p)
  {
    if DoubleStarAt(s, p) then FindClose(s, p + 2) else None
  }

  /** `findall` from position `p`: every match, left to right, without overlap. */
  function Scan(s: string, p: nat): (ms: seq<Span>)
    ensures forall i :: 0 <= i < |ms| ==> p <= ms[i].open && ms[i].open + 2 <= ms[i].close && ms[i].close + 2 <= |s|
    decreases |s| - p
  {
    if |s| <= p then
      []
    else
      match MatchAt(s, p)
      case Some(e) => [Span(p, e)] + Scan(s, e + 2)
      case None => Scan(s, p + 1)
  }

  /** The scan meets the characterisation of `findall`. */
  lemma {:induction false} ScanIsFindAll(s: string, p: nat)
    ensures IsFindAll(s, p, Scan(s, p))
    decreases |s| - p
  {
    if |s| <= p {
      assert forall q: nat :: p <= q ==> NoMatchAt(s, q);
    } else {
      match MatchAt(s, p)
      case Some(e) =>
        ScanIsFindAll(s, e + 2);
        var ms := Scan(s, p);
        assert ms[1..] == Scan(s, e + 2);
      case None =>
        ScanIsFindAll(s, p + 1);
        assert forall q: nat :: p <= q < p + 1 ==> NoMatchAt(s, q);
    }
  }

  /**
   * What the characterisation says of each match on its own: it is a match,
   * it lies after `p` and inside `s`, and the matches come in order without overlap.
   */
  lemma {:induction false} FindAllSpans(s: string, p: nat, ms: seq<Span>)
    requires IsFindAll(s, p, ms)
    ensures forall i :: 0 <= i < |ms| ==> MatchesAt(s, ms[i].open, ms[i].close)
    ensures forall i :: 0 <= i < |ms| ==> p <= ms[i].open && ms[i].open + 2 <= ms[i].close && ms[i].close + 2 <= |s|
    ensures forall i, j :: 0 <= i < j < |ms| ==> ms[i].close + 2 <= ms[j].open
    decreases |ms|
  {
    if ms != [] {
      FindAllSpans(s, ms[0].close + 2, ms[1..]);
      assert forall i :: 0 < i < |ms| ==> ms[i] == ms[1..][i - 1];
    }
  }

  /** The characterisation pins the scan down: two sequences of matches that meet it are equal. */
  lemma {:induction false} FindAllUnique(s: string, p: nat, a: seq<Span>, b: seq<Span>)
    requires IsFindAll(s, p, a) && IsFindAll(s, p, b)
    ensures a == b
    decreases |a|
  {
    if a != [] {
      LeftmostMatchFirst(s, p, b, a[0].open, a[0].close);
    }
    if b != [] {
      LeftmostMatchFirst(s, p, a, b[0].open, b[0].close);
    }
    if a != [] {
      FirstCloseUnique(s, a[0].open + 2, a[0].close, b[0].close);
      FindAllUnique(s, a[0].close + 2, a[1..], b[1..]);
      assert a == [a[0]] + a[1..] && b == [b[0]] + b[1..];
    }
  }

  /** A match at `q`, at or after `p`, means `findall` from `p` finds something, no later than `q`. */
  lemma LeftmostMatchFirst(s: string, p: nat, ms: seq<Span>, q: nat, e: int)
    requires IsFindAll(s, p, ms) && p <= q && MatchesAt(s, q, e)
    ensures ms != [] && ms[0].open <= q
  {
    assert CanCloseAt(s, q + 2, e);
    assert !NoMatchAt(s, q);
  }

  /** The lazy group has one place to stop. */
  lemma FirstCloseUnique(s: string, k: nat, e1: int, e2: int)
    requires FirstCloseAt(s, k, e1) && FirstCloseAt(s, k, e2)
    ensures e1 == e2
  {
    assert DoubleStarAt(s, e1) && DoubleStarAt(s, e2);
  }

  /** The text captured by the group of a match. */
  function Group(s: string, m: Span): string
    requires m.open + 2 <= m.close <= |s|
  {
    s[m.open + 2..m.close]
  }

  /**
   * `re.findall(r"\*\*(.*?)\*\*", s)`: the group of every match, in order.
   * Each title is the shortest possible: it holds no newline and no `**`.
   */
  function BoldTitles(s: string): (ts: seq<string>)
    ensures |ts| == |Scan(s, 0)|
    ensures forall i :: 0 <= i < |ts| ==> '\n' !in ts[i] && forall j :: !DoubleStarAt(ts[i], j)
  {
    var ms := Scan(s, 0);
    ScanIsFindAll(s, 0);
    FindAllSpans(s, 0, ms);
    var ts := seq(|ms|, i requires 0 <= i < |ms| => Group(s, ms[i]));
    forall i | 0 <= i < |ts|
      ensures '\n' !in ts[i] && forall j :: !DoubleStarAt(ts[i], j)
    {
      GroupIsShortest(s, ms, i);
    }
    ts
  }

  /**
   * What each bold title is: the group of the match at the same index, where
   * the matches are the ones `findall` characterises.
   */
  lemma BoldTitlesAreGroups(s: string)
    ensures var ms := Scan(s, 0);
      && IsFindAll(s, 0, ms)
      && |BoldTitles(s)| == |ms|
      && forall i :: 0 <= i < |ms| ==>
           ms[i].open + 2 <= ms[i].close <= |s| && BoldTitles(s)[i] == s[ms[i].open + 2..ms[i].close]
  {
    ScanIsFindAll(s, 0);
    FindAllSpans(s, 0, Scan(s, 0));
  }

  lemma GroupIsShortest(s: string, ms: seq<Span>, i: nat)
    requires i < |ms|
    requires MatchesAt(s, ms[i].open, ms[i].close)
    ensures '\n' !in Group(s, ms[i]) && forall j :: !DoubleStarAt(Group(s, ms[i]), j)
  {
    var m := ms[i];
    var t := Group(s, m);
    assert forall j :: DoubleStarAt(t, j) ==> DoubleStarAt(s, m.open + 2 + j);
    assert forall j :: 0 <= j < |t| ==> t[j] == s[m.open + 2 + j];
  }

  /** One suggestion written the way the reply is asked for: the title in bold, then a description. */
  datatype Suggestion = Suggestion(title: string, blurb: string)

  /** A reply made of suggestions, one per line. */
  function Listing(items: seq<Suggestion>): string
  {
    if items == [] then "" else Entry(items[0]) + Listing(items[1..])
  }

  function Entry(item: Suggestion): string {
    "**" + item.title + "**: " + item.blurb + "\n"
  }

  /** A suggestion whose title can sit between `**` pairs and whose text adds no `*` of its own. */
  predicate Plain(item: Suggestion) {
    '*' !in item.title && '\n' !in item.title && '*' !in item.blurb
  }

  function Titles(items: seq<Suggestion>): (ts: seq<string>)
    ensures |ts| == |items|
  {
    seq(|items|, i requires 0 <= i < |items| => items[i].title)
  }

  /**
   * Bold extraction recovers every title of a listing, in order, however many
   * there are: the primary path is not cut to three.
   */
  lemma ListingRoundTrip(items: seq<Suggestion>)
    requires forall i :: 0 <= i < |items| ==> Plain(items[i])
    ensures BoldTitles(Listing(items)) == Titles(items)
  {
    var s := Listing(items);
    ScanListing("", items);
    assert "" + s == s;
  }

  lemma {:induction false} ScanListing(x: string, items: seq<Suggestion>)
    requires forall i :: 0 <= i < |items| ==> Plain(items[i])
    ensures var s := x + Listing(items); var ms := Scan(s, |x|);
      && |ms| == |items|
      && forall i :: 0 <= i < |ms| ==> ms[i].open + 2 <= ms[i].close <= |s| && Group(s, ms[i]) == items[i].title
    decreases |items|
  {
    var s := x + Listing(items);
    if items == [] {
      assert s == x;
    } else {
      var x' := x + Entry(items[0]);
      assert s == x' + Listing(items[1..]);
      ScanEntry(s, x, items[0], Listing(items[1..]), |x'|);
      ScanListing(x', items[1..]);
    }
  }

  /**
   * One entry yields one match, whose group is the entry's title, and the
   * scan resumes at `q`, just after the entry.
   */
  lemma ScanEntry(s: string, x: string, item: Suggestion, tail: string, q: nat)
    requires Plain(item) && s == x + Entry(item) + tail && q == |x| + |Entry(item)|
    ensures |x| + 4 + |item.title| <= q <= |s|
    ensures Scan(s, |x|) == [Span(|x|, |x| + 2 + |item.title|)] + Scan(s, q)
    ensures Group(s, Span(|x|, |x| + 2 + |item.title|)) == item.title
  {
    EntryLayout(s, x, item, tail);
    ScanBoldThenPlain(s, |x|, |x| + 2 + |item.title|, q);
  }

  /** Where the `**` pairs of an entry sit, and that nothing else in it is a `*`. */
  lemma EntryLayout(s: string, x: string, item: Suggestion, tail: string)
    requires Plain(item) && s == x + Entry(item) + tail
    ensures var p, e := |x|, |x| + 2 + |item.title|;
      && e + 2 <= p + |Entry(item)| <= |s|
      && DoubleStarAt(s, p) && DoubleStarAt(s, e)
      && (forall j :: p + 2 <= j < e ==> s[j] != '*' && s[j] != '\n')
      && (forall j :: e + 2 <= j < p + |Entry(item)| ==> s[j] != '*')
      && s[p + 2..e] == item.title
  {
    EntryShape(item);
    var p, n := |x|, |Entry(item)|;
    assert forall j :: 0 <= j < n ==> s[p + j] == Entry(item)[j];
    assert s[p..p + n] == Entry(item);
  }

  /** The layout of one entry on its own: `**`, the title, `**`, then text with no `*`. */
  lemma EntryShape(item: Suggestion)
    requires Plain(item)
    ensures var r, c := Entry(item), |item.title| + 2;
      && c + 2 <= |r|
      && r[0] == '*' && r[1] == '*' && r[c] == '*' && r[c + 1] == '*'
      && (forall j :: 2 <= j < c ==> r[j] != '*' && r[j] != '\n')
      && (forall j :: c + 2 <= j < |r| ==> r[j] != '*')
      && r[2..c] == item.title
  {
    var t, r := item.title, Entry(item);
    assert forall j :: 0 <= j < |t| ==> r[2 + j] == t[j];
    assert forall j :: 0 <= j < |item.blurb| ==> r[|t| + 6 + j] == item.blurb[j];
  }

  /** A `**`, plain text, a `**`, then text with no `*`: one match, and the scan goes on after the text. */
  lemma ScanBoldThenPlain(s: string, p: nat, e: nat, q: nat)
    requires DoubleStarAt(s, p) && p + 2 <= e && DoubleStarAt(s, e)
    requires forall j :: p + 2 <= j < e ==> s[j] != '*' && s[j] != '\n'
    requires e + 2 <= q <= |s|
    requires forall j :: e + 2 <= j < q ==> s[j] != '*'
    ensures Scan(s, p) == [Span(p, e)] + Scan(s, q)
  {
    CloseAfterPlain(s, p + 2, e);
    SkipPlain(s, e + 2, q);
  }

  /** Characters other than `*` cannot start a match: scanning skips them. */
  lemma {:induction false} SkipPlain(s: string, p: nat, q: nat)
    requires p <= q <= |s|
    requires forall j :: p <= j < q ==> s[j] != '*'
    ensures Scan(s, p) == Scan(s, q)
    decreases q - p
  {
    if p < q {
      assert MatchAt(s, p) == None;
      SkipPlain(s, p + 1, q);
    }
  }

  /** With nothing but plain characters before it, the next `**` closes the group. */
  lemma CloseAfterPlain(s: string, k: nat, e: nat)
    requires k <= e && DoubleStarAt(s, e)
    requires forall j :: k <= j < e ==> s[j] != '*' && s[j] != '\n'
    ensures FindClose(s, k) == Some(e)
  {
    assert FirstCloseAt(s, k, e);
    var r := FindClose(s, k);
    if r.Some? {
      FirstCloseUnique(s, k, r.value, e);
    }
  }

  /** `****` holds one match, with an empty title. */
  lemma EmptyTitleExample(s: string)
    requires s == "****"
    ensures BoldTitles(s) == [""]
  {
    ScanBoldThenPlain(s, 0, 2, 4);
    assert Scan(s, 4) == [];
    assert Scan(s, 0) == [Span(0, 2)];
    assert Group(s, Span(0, 2)) == "";
  }

  /** A newline ends a bold span early: `**a` then `b**` on the next line match nothing. */
  lemma NewlineExample(s: string)
    requires s == "**a\nb**"
    ensures BoldTitles(s) == []
  {
    assert forall q: nat :: NoMatchAt(s, q) by {
      assert s[3] == '\n';
    }
    ScanIsFindAll(s, 0);
    FindAllUnique(s, 0, [], Scan(s, 0));
  }

  /**
   * Trailing text without a `*` adds no match and changes none: the `strip`
   * applied to the reply before extraction never changes its bold titles
   * when the reply does not start with whitespace.
   */
  lemma StripKeepsBoldTitles(s: string)
    requires s == [] || !PyStr.IsSpace(s[0])
    ensures BoldTitles(PyStr.Strip(s)) == BoldTitles(s)
  {
    assert PyStr.TrimStart(s) == s;
    var t := PyStr.TrimEnd(s);
    SpacesHoldNoStar(s, |t|);
    assert s == t + s[|t|..];
    DropTail(t, s[|t|..]);
  }

  /** Whitespace holds no `*`. */
  lemma SpacesHoldNoStar(s: string, n: nat)
    requires n <= |s| && forall k :: n <= k < |s| ==> PyStr.IsSpace(s[k])
    ensures '*' !in s[n..]
  {
    assert forall j :: 0 <= j < |s| - n ==> s[n..][j] == s[n + j];
  }

  /** Text with no `*` after `t` changes none of its bold titles. */
  lemma DropTail(t: string, b: string)
    requires '*' !in b
    ensures BoldTitles(t + b) == BoldTitles(t)
  {
    ScanDropTail(t, b, 0);
    var ms := Scan(t, 0);
    ScanIsFindAll(t, 0);
    FindAllSpans(t, 0, ms);
    assert forall i :: 0 <= i < |ms| ==> Group(t + b, ms[i]) == Group(t, ms[i]);
  }

  lemma {:induction false} ScanDropTail(t: string, b: string, p: nat)
    requires '*' !in b
    ensures Scan(t + b, p) == Scan(t, p)
    decreases |t + b| - p
  {
    var s := t + b;
    if |t| <= p {
      if p <= |s| {
        SkipPlain(s, p, |s|);
      }
    } else {
      MatchAtDropTail(t, b, p);
      var m := MatchAt(t, p);
      if m.Some? {
        var e := m.value;
        ScanDropTail(t, b, e + 2);
        ScanStep(s, p, e);
        ScanStep(t, p, e);
      } else {
        ScanDropTail(t, b, p + 1);
        ScanSkip(s, p);
        ScanSkip(t, p);
      }
    }
  }

  /** One step of `Scan` at a match. */
  lemma ScanStep(s: string, p: nat, e: nat)
    requires p < |s| && MatchAt(s, p) == Some(e)
    ensures e + 2 <= |s|
    ensures Scan(s, p) == [Span(p, e)] + Scan(s, e + 2)
  {
  }

  /** One step of `Scan` where nothing matches. */
  lemma ScanSkip(s: string, p: nat)
    requires p < |s| && MatchAt(s, p).None?
    ensures Scan(s, p) == Scan(s, p + 1)
  {
  }

  lemma MatchAtDropTail(t: string, b: string, p: nat)
    requires '*' !in b && p < |t|
    ensures MatchAt(t + b, p) == MatchAt(t, p)
  {
    var s := t + b;
    assert p + 1 < |s| ==> s[p + 1] == (if p + 1 < |t| then t[p + 1] else b[p + 1 - |t|]);
    assert DoubleStarAt(s, p) == DoubleStarAt(t, p);
    if DoubleStarAt(t, p) {
      FindCloseDropTail(t, b, p + 2);
    }
  }

  lemma {:induction false} FindCloseDropTail(t: string, b: string, k: nat)
    requires '*' !in b
    ensures FindClose(t + b, k) == FindClose(t, k)
    decreases |t + b| - k
  {
    var s := t + b;
    if |t| <= k {
      NoStarNoClose(s, k);
    } else {
      assert s[k] == t[k];
      if k + 1 < |s| {
        assert s[k + 1] == if k + 1 < |t| then t[k + 1] else b[k + 1 - |t|];
      }
      if k + 1 < |s| {
        FindCloseDropTail(t, b, k + 1);
      }
    }
  }

  /** Without a `*` from `k` on, there is nothing to close a group. */
  lemma NoStarNoClose(s: string, k: nat)
    requires forall j :: k <= j < |s| ==> s[j] != '*'
    ensures FindClose(s, k) == None
  {
  }
}

/**
 * The fallback title extraction, used when no bold span is found:
 *
 *   [line.split(".")[1].strip().split("(")[0]
 *      for line in reply.split("\n") if "." in line][:3]
 *
 * and the choice between the two paths.
 */
module NumberedLines {
  import opened PyStr
  import BoldScan

  /** How many fallback titles are kept (the `[:3]`). */
  const FallbackLimit := 3

  /**
   * The title read from one line that holds a `.`: the text between its first
   * and second `.`, stripped of surrounding whitespace, then cut before its
   * first `(`. The cut comes after the strip, so whitespace before a `(` stays.
   */
  function LineTitle(line: string): (t: string)
    requires '.' in line
    ensures '.' !in t && '(' !in t
    ensures t == [] || !IsSpace(t[0])
  {
    CutAt(Strip(SecondField(line, '.')), '(')
  }

  /** The titles of the lines that hold a `.`, in line order. */
  function DottedTitles(lines: seq<string>): (ts: seq<string>)
    ensures |ts| <= |lines|
    ensures forall i :: 0 <= i < |ts| ==> '.' !in ts[i] && '(' !in ts[i]
  {
    if lines == [] then []
    else if '.' in lines[0] then [LineTitle(lines[0])] + DottedTitles(lines[1..])
    else DottedTitles(lines[1..])
  }

  /** The fallback path: the first three titles of dotted lines. */
  function FallbackTitles(reply: string): (ts: seq<string>)
    ensures ts <= DottedTitles(Split(reply, '\n'))
    ensures |ts| == if |DottedTitles(Split(reply, '\n'))| < FallbackLimit then |DottedTitles(Split(reply, '\n'))| else FallbackLimit
  {
    var all := DottedTitles(Split(reply, '\n'));
    if |all| <= FallbackLimit then all else all[..FallbackLimit]
  }

  /**
   * The titles the reply yields: every bold span when there is at least one,
   * untruncated; otherwise the fallback titles, at most three.
   */
  function ExtractTitles(reply: string): (ts: seq<string>)
    ensures BoldScan.BoldTitles(reply) != [] ==> ts == BoldScan.BoldTitles(reply)
    ensures BoldScan.BoldTitles(reply) == [] ==> ts == FallbackTitles(reply) && |ts| <= FallbackLimit
  {
    var bold := BoldScan.BoldTitles(reply);
    if bold != [] then bold else FallbackTitles(reply)
  }

  /** A single line yields its own title when it holds a `.`, and nothing otherwise. */
  lemma DottedTitlesOne(line: string)
    ensures DottedTitles([line]) == if '.' in line then [LineTitle(line)] else []
  {
    assert [line][1..] == [];
  }

  /** Every line that holds a `.` contributes its own title. */
  lemma DottedTitleIncluded(lines: seq<string>, i: nat)
    requires i < |lines| && '.' in lines[i]
    ensures LineTitle(lines[i]) in DottedTitles(lines)
  {
    var a, line, b := lines[..i], lines[i], lines[i + 1..];
    assert lines == a + ([line] + b);
    DottedTitlesAppend(a, [line] + b);
    DottedTitlesAppend([line], b);
    DottedTitlesOne(line);
    var ta, t, tb := DottedTitles(a), LineTitle(line), DottedTitles(b);
    assert DottedTitles(lines) == ta + ([t] + tb);
    assert (ta + ([t] + tb))[|ta|] == t;
  }

  /** Lines keep their order: the titles of two stretches of lines are the titles of each, one after the other. */
  lemma {:induction false} DottedTitlesAppend(a: seq<string>, b: seq<string>)
    ensures DottedTitles(a + b) == DottedTitles(a) + DottedTitles(b)
    decreases |a|
  {
    if a != [] {
      assert (a + b)[1..] == a[1..] + b;
      DottedTitlesAppend(a[1..], b);
    } else {
      assert a + b == b;
    }
  }

  /** The strip comes before the cut, so the space before `(2010)` is kept. */
  lemma InceptionExample(line: string)
    requires line == "1. Inception (2010)"
    ensures LineTitle(line) == "Inception "
  {
    InceptionField(line);
    InceptionStripped(SecondField(line, '.'));
    InceptionCut(Strip(SecondField(line, '.')));
  }

  lemma InceptionField(line: string)
    requires line == "1. Inception (2010)"
    ensures SecondField(line, '.') == " Inception (2010)"
  {
    var field := " Inception (2010)";
    assert '.' !in field;
    assert line == "1" + "." + field;
    SecondFieldOf("1", '.', field);
  }

  lemma InceptionStripped(field: string)
    requires field == " Inception (2010)"
    ensures Strip(field) == "Inception (2010)"
  {
    var r := "Inception (2010)";
    assert r[0] == 'I' && r[|r| - 1] == ')';
    assert field == [' '] + r;
    StripLeadingSpace(' ', r);
  }

  lemma InceptionCut(stripped: string)
    requires stripped == "Inception (2010)"
    ensures CutAt(stripped, '(') == "Inception "
  {
    CutAtIs(stripped, '(', 10);
    assert stripped[..10] == "Inception ";
  }
}

/**
 * The few Python `str` methods the title extraction relies on, on `seq<char>`:
 * `s.split(c)` with a one-character separator, `s.strip()` with no argument,
 * and `"c" in s`. Characters are Unicode scalar values, as Dafny's `char` is.
 */
module PyStr {

  /** Python's `c.isspace()`: the characters `str.strip()` removes by default. */
  predicate IsSpace(c: char) {
    var n := c as int;
    || (0x09 <= n <= 0x0D)
    || (0x1C <= n <= 0x20)
    || n == 0x85 || n == 0xA0 || n == 0x1680
    || (0x2000 <= n <= 0x200A)
    || n == 0x2028 || n == 0x2029 || n == 0x202F || n == 0x205F || n == 0x3000
  }

  /** Position of the first `c` in `s` (Python's `s.index(c)`). */
  function IndexOf(s: string, c: char): (i: nat)
    requires c in s
    ensures i < |s| && s[i] == c && c !in s[..i]
  {
    if s[0] == c then 0
    else
      assert c in s[1..] by { assert s == [s[0]] + s[1..]; }
      var j := IndexOf(s[1..], c);
      assert s[..j + 1] == [s[0]] + s[1..][..j];
      j + 1
  }

  /** Python's `sep.join(parts)` for a one-character separator. */
  function Join(parts: seq<string>, sep: char): string
  {
    if parts == [] then ""
    else if |parts| == 1 then parts[0]
    else parts[0] + [sep] + Join(parts[1..], sep)
  }

  /**
   * Python's `s.split(sep)` for a one-character separator: the pieces
   * between separators, always at least one, empty pieces kept.
   */
  function Split(s: string, sep: char): (parts: seq<string>)
    ensures 1 <= |parts|
    ensures forall i :: 0 <= i < |parts| ==> sep !in parts[i]
    ensures Join(parts, sep) == s
    ensures sep in s <==> 2 <= |parts|
    decreases |s|
  {
    if sep !in s then [s]
    else
      var i := IndexOf(s, sep);
      var rest := Split(s[i + 1..], sep);
      var parts := [s[..i]] + rest;
      assert parts[1..] == rest;
      assert s == s[..i] + [sep] + s[i + 1..];
      parts
  }

  /** Splitting what was joined gives back the pieces, provided none holds the separator. */
  lemma {:induction false} SplitJoin(parts: seq<string>, sep: char)
    requires 1 <= |parts|
    requires forall i :: 0 <= i < |parts| ==> sep !in parts[i]
    ensures Split(Join(parts, sep), sep) == parts
    decreases |parts|
  {
    if |parts| > 1 {
      var rest := parts[1..];
      var tail := Join(rest, sep);
      FirstSeparator(parts[0], sep, tail);
      SplitJoin(rest, sep);
      assert parts == [parts[0]] + rest;
    } else {
      assert Join(parts, sep) == parts[0];
    }
  }

  /** Splitting at a first separator that follows `head`: `head`, then the pieces of the rest. */
  lemma FirstSeparator(head: string, sep: char, tail: string)
    requires sep !in head
    ensures Split(head + [sep] + tail, sep) == [head] + Split(tail, sep)
  {
    var s := head + [sep] + tail;
    assert s[|head|] == sep;
    var i := IndexOf(s, sep);
    assert s[..|head|] == head;
    assert i == |head|;
    assert s[..i] == head && s[i + 1..] == tail;
  }

  /** The part of `s` before the first `c`, all of `s` when there is none (Python's `s.split(c)[0]`). */
  function CutAt(s: string, c: char): (r: string)
    ensures |r| <= |s| && r == s[..|r|]
    ensures c !in r
    ensures |r| == |s| || s[|r|] == c
  {
    var parts := Split(s, c);
    if |parts| == 1 then
      assert Join(parts, c) == parts[0];
      parts[0]
    else
      assert s == parts[0] + [c] + Join(parts[1..], c);
      parts[0]
  }

  /**
   * The text between the first and the second `c` of `s`, or to its end when
   * `s` has only one `c` (Python's `s.split(c)[1]`).
   */
  function SecondField(s: string, c: char): (r: string)
    requires c in s
    ensures var rest := s[IndexOf(s, c) + 1..]; r == CutAt(rest, c)
  {
    var i := IndexOf(s, c);
    assert s == s[..i] + [c] + s[i + 1..];
    FirstSeparator(s[..i], c, s[i + 1..]);
    Split(s, c)[1]
  }

  /** `s` with its leading whitespace removed (Python's `s.lstrip()`). */
  function TrimStart(s: string): (r: string)
    ensures |r| <= |s| && r == s[|s| - |r|..]
    ensures forall k :: 0 <= k < |s| - |r| ==> IsSpace(s[k])
    ensures r == [] || !IsSpace(r[0])
  {
    if s != [] && IsSpace(s[0]) then
      var r := TrimStart(s[1..]);
      assert s[1..][|s| - 1 - |r|..] == s[|s| - |r|..];
      assert forall k :: 1 <= k < |s| - |r| ==> s[k] == s[1..][k - 1];
      r
    else
      s
  }

  /** `s` with its trailing whitespace removed (Python's `s.rstrip()`). */
  function TrimEnd(s: string): (r: string)
    ensures |r| <= |s| && r == s[..|r|]
    ensures forall k :: |r| <= k < |s| ==> IsSpace(s[k])
    ensures r == [] || !IsSpace(r[|r| - 1])
  {
    if s != [] && IsSpace(s[|s| - 1]) then
      var r := TrimEnd(s[..|s| - 1]);
      assert s[..|s| - 1][..|r|] == s[..|r|];
      assert forall k :: |r| <= k < |s| - 1 ==> s[k] == s[..|s| - 1][k];
      r
    else
      s
  }

  /** Python's `s.strip()`: neither end of the result is whitespace. */
  function Strip(s: string): (r: string)
    ensures |r| <= |s|
    ensures r == [] || (!IsSpace(r[0]) && !IsSpace(r[|r| - 1]))
  {
    TrimEnd(TrimStart(s))
  }

  /**
   * `strip` removes exactly the surrounding whitespace: for text `r` that
   * neither starts nor ends with whitespace, padded with whitespace on both
   * sides, `strip` gives back `r`.
   */
  lemma StripExact(a: string, r: string, b: string)
    requires forall k :: 0 <= k < |a| ==> IsSpace(a[k])
    requires forall k :: 0 <= k < |b| ==> IsSpace(b[k])
    requires r == [] || (!IsSpace(r[0]) && !IsSpace(r[|r| - 1]))
    ensures Strip(a + r + b) == r
  {
    if r == [] {
      StripBlank(a, b);
      assert a + r + b == a + b;
    } else {
      assert a + r + b == a + (r + b);
      TrimStartExact(a, r + b);
      TrimEndExact(r, b);
    }
  }

  /** One whitespace character before unpadded text is all that `strip` removes. */
  lemma StripLeadingSpace(c: char, r: string)
    requires IsSpace(c) && r != [] && !IsSpace(r[0]) && !IsSpace(r[|r| - 1])
    ensures Strip([c] + r) == r
  {
    assert ([c] + r)[1..] == r;
    assert TrimStart([c] + r) == TrimStart(r) == r;
  }

  /** Whitespace alone strips to nothing. */
  lemma StripBlank(a: string, b: string)
    requires forall k :: 0 <= k < |a| ==> IsSpace(a[k])
    requires forall k :: 0 <= k < |b| ==> IsSpace(b[k])
    ensures Strip(a + b) == []
  {
    var x := a + b;
    forall k | 0 <= k < |x|
      ensures IsSpace(x[k])
    {
      if k < |a| {
        assert x[k] == a[k];
      } else {
        assert x[k] == b[k - |a|];
      }
    }
    TrimStartExact(x, []);
    assert x + [] == x;
  }

  lemma {:induction false} TrimStartExact(a: string, t: string)
    requires forall k :: 0 <= k < |a| ==> IsSpace(a[k])
    requires t == [] || !IsSpace(t[0])
    ensures TrimStart(a + t) == t
    decreases |a|
  {
    if a == [] {
      assert a + t == t;
    } else {
      assert (a + t)[1..] == a[1..] + t;
      TrimStartExact(a[1..], t);
    }
  }

  lemma {:induction false} TrimEndExact(t: string, b: string)
    requires forall k :: 0 <= k < |b| ==> IsSpace(b[k])
    requires t == [] || !IsSpace(t[|t| - 1])
    ensures TrimEnd(t + b) == t
    decreases |b|
  {
    if b == [] {
      assert t + b == t;
    } else {
      var b' := b[..|b| - 1];
      assert (t + b)[..|t + b| - 1] == t + b';
      TrimEndExact(t, b');
    }
  }

  /** With its first `c` at `i` and none after, the second field of `s` is all that follows `i`. */
  lemma SecondFieldIs(s: string, c: char, i: nat)
    requires i < |s| && s[i] == c && c !in s[..i] && c !in s[i + 1..]
    ensures SecondField(s, c) == s[i + 1..]
  {
    assert IndexOf(s, c) == i;
    var rest := s[i + 1..];
    var r := CutAt(rest, c);
  }

  /** The second field of `a`, `c`, `b`, where neither `a` nor `b` holds `c`, is `b`. */
  lemma SecondFieldOf(a: string, c: char, b: string)
    requires c !in a && c !in b
    ensures SecondField(a + [c] + b, c) == b
  {
    var s := a + [c] + b;
    assert s[..|a|] == a && s[|a| + 1..] == b;
    SecondFieldIs(s, c, |a|);
  }

  /** With its first `c` at `i`, `s` is cut to its first `i` characters. */
  lemma CutAtIs(s: string, c: char, i: nat)
    requires i < |s| && s[i] == c && c !in s[..i]
    ensures CutAt(s, c) == s[..i]
  {
    var r := CutAt(s, c);
    assert forall k :: 0 <= k < i ==> s[k] == s[..i][k];
  }
}

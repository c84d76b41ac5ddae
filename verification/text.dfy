/**
 * The string primitives the mail client borrows from JavaScript:
 * `String.prototype.trim`, the regular-expression class `\s`,
 * `split` on a one-character separator, `startsWith`, and `length`
 * counted in UTF-16 code units.
 */
module Text {

  /**
   * JavaScript's WhiteSpace and LineTerminator code points. `trim` strips
   * exactly these, and the regular-expression class `\s` matches exactly
   * these, so one predicate serves both.
   */
  predicate IsSpace(c: char) {
    || c == '\t' || c == '\n' || c == '\U{000B}' || c == '\U{000C}' || c == '\r'
    || c == ' ' || c == '\U{00A0}' || c == '\U{1680}'
    || ('\U{2000}' <= c <= '\U{200A}')
    || c == '\U{2028}' || c == '\U{2029}' || c == '\U{202F}' || c == '\U{205F}'
    || c == '\U{3000}' || c == '\U{FEFF}'
  }

  /** True iff `s` has nothing but white space (the empty string included). */
  predicate Blank(s: string) {
    forall c :: c in s ==> IsSpace(c)
  }

  /** `s` with its leading white space removed. */
  function TrimStart(s: string): (r: string)
    ensures |r| <= |s| && r == s[|s| - |r|..]
    ensures Blank(s[..|s| - |r|])
    ensures r == [] || !IsSpace(r[0])
  {
    if s != [] && IsSpace(s[0]) then TrimStart(s[1..]) else s
  }

  /** `s` with its trailing white space removed. */
  function TrimEnd(s: string): (r: string)
    ensures |r| <= |s| && r == s[..|r|]
    ensures Blank(s[|r|..])
    ensures r == [] || !IsSpace(r[|r| - 1])
  {
    if s != [] && IsSpace(s[|s| - 1]) then TrimEnd(s[..|s| - 1]) else s
  }

  /** `r` is `s` with white space, and only white space, cut from its two ends. */
  ghost predicate StripsSpaceFrom(r: string, s: string) {
    exists i :: 0 <= i <= i + |r| <= |s| && r == s[i..i + |r|] && Blank(s[..i]) && Blank(s[i + |r|..])
  }

  /** `String.prototype.trim`. */
  function Trim(s: string): (r: string)
    ensures r == [] <==> Blank(s)
  {
    TrimBlank(s);
    TrimEnd(TrimStart(s))
  }

  lemma TrimBlank(s: string)
    ensures TrimEnd(TrimStart(s)) == [] <==> Blank(s)
  {
    TrimBlankOnlyIf(s);
    TrimBlankIf(s);
  }

  lemma TrimBlankOnlyIf(s: string)
    ensures TrimEnd(TrimStart(s)) == [] ==> Blank(s)
  {
    if TrimEnd(TrimStart(s)) == [] {
      TrimEndEmpty(TrimStart(s));
      BlankOfTrimStart(s);
    }
  }

  lemma TrimBlankIf(s: string)
    ensures Blank(s) ==> TrimEnd(TrimStart(s)) == []
  {
    if Blank(s) {
      TrimStartOfBlank(s);
    }
  }

  /** A blank string loses everything to `TrimStart`. */
  lemma {:induction false} TrimStartOfBlank(s: string)
    requires Blank(s)
    ensures TrimStart(s) == []
  {
    if s != [] {
      assert s[0] in s;
      assert forall c :: c in s[1..] ==> c in s;
      TrimStartOfBlank(s[1..]);
    }
  }

  /** `TrimStart` removes only white space: if what remains is blank, so was the string. */
  lemma {:induction false} BlankOfTrimStart(s: string)
    requires Blank(TrimStart(s))
    ensures Blank(s)
  {
    if s != [] && IsSpace(s[0]) {
      BlankOfTrimStart(s[1..]);
      assert s == [s[0]] + s[1..];
    }
  }

  /** `TrimEnd` empties only a blank string. */
  lemma {:induction false} TrimEndEmpty(s: string)
    requires TrimEnd(s) == []
    ensures Blank(s)
  {
    if s != [] {
      TrimEndEmpty(s[..|s| - 1]);
      assert s == s[..|s| - 1] + [s[|s| - 1]];
    }
  }

  /** A non-empty trim starts and ends with a character that is not white space. */
  lemma TrimEnds(s: string)
    ensures Trim(s) == [] || (!IsSpace(Trim(s)[0]) && !IsSpace(Trim(s)[|Trim(s)| - 1]))
  {
    var front := TrimStart(s);
    EndsOfPrefix(front, TrimEnd(front));
  }

  /** A non-empty prefix of a string with a non-space head keeps that head. */
  lemma EndsOfPrefix(front: string, r: string)
    requires front == [] || !IsSpace(front[0])
    requires |r| <= |front| && r == front[..|r|]
    requires r == [] || !IsSpace(r[|r| - 1])
    ensures r == [] || (!IsSpace(r[0]) && !IsSpace(r[|r| - 1]))
  {
    if r != [] {
      assert r[0] == front[0];
    }
  }

  /** `trim` removes white space from the two ends and nothing else. */
  lemma TrimInfix(s: string)
    ensures StripsSpaceFrom(Trim(s), s)
  {
    var front := TrimStart(s);
    var r := TrimEnd(front);
    var i := |s| - |front|;
    InfixAt(s, front, r, i);
  }

  /** A blank cut from the front of `s` and a blank cut from the back of what remains leave an infix. */
  lemma InfixAt(s: string, front: string, r: string, i: int)
    requires 0 <= i <= |s| && front == s[i..] && Blank(s[..i])
    requires |r| <= |front| && r == front[..|r|] && Blank(front[|r|..])
    ensures StripsSpaceFrom(r, s)
  {
    assert s[i..i + |r|] == r;
    assert s[i + |r|..] == front[|r|..];
  }

  /** A leading space is cut by `trim` like any other. */
  lemma TrimLeadingSpace(s: string)
    ensures Trim(" " + s) == Trim(s)
  {
    assert (" " + s)[1..] == s;
  }

  /** A string that already has no white space at either end is its own trim. */
  lemma TrimTrimmed(s: string)
    requires s == [] || (!IsSpace(s[0]) && !IsSpace(s[|s| - 1]))
    ensures Trim(s) == s
  {
  }

  /** `s.startsWith(prefix)`. */
  predicate StartsWith(s: string, prefix: string) {
    |prefix| <= |s| && s[..|prefix|] == prefix
  }

  /**
   * `s.substring(start, end)`: both bounds are clamped into `0..|s|` and
   * swapped when they come in the wrong order.
   */
  function Substring(s: string, start: int, end: int): (r: string)
    ensures 0 <= start <= end && end <= |s| ==> r == s[start..end]
    ensures 0 <= start <= |s| <= end ==> r == s[start..]
    ensures |r| <= |s|
  {
    var a := if start < 0 then 0 else if start > |s| then |s| else start;
    var b := if end < 0 then 0 else if end > |s| then |s| else end;
    if a <= b then s[a..b] else s[b..a]
  }

  /** The number of UTF-16 code units of `s`: JavaScript's `s.length`. */
  function Utf16Length(s: string): (n: nat)
    ensures |s| <= n <= 2 * |s|
  {
    if s == [] then 0
    else (if s[0] <= '\U{FFFF}' then 1 else 2) + Utf16Length(s[1..])
  }

  /** Joins `parts` with `sep` between consecutive parts: `parts.join(sep)`. */
  function Join(parts: seq<string>, sep: char): string
    requires |parts| >= 1
  {
    if |parts| == 1 then parts[0] else parts[0] + [sep] + Join(parts[1..], sep)
  }

  /**
   * `s.split(sep)` for a one-character separator: the maximal runs of `s`
   * between separators, so there is always at least one (possibly empty) part.
   */
  function Split(s: string, sep: char): (parts: seq<string>)
    ensures |parts| >= 1
    ensures forall k :: 0 <= k < |parts| ==> sep !in parts[k]
  {
    if s == [] then [[]]
    else
      var rest := Split(s[1..], sep);
      if s[0] == sep then [[]] + rest
      else [[s[0]] + rest[0]] + rest[1..]
  }

  /** Splitting loses nothing: joining the parts back gives the string. */
  lemma {:induction false} JoinSplit(s: string, sep: char)
    ensures Join(Split(s, sep), sep) == s
  {
    if s != [] {
      var rest := Split(s[1..], sep);
      JoinSplit(s[1..], sep);
      if s[0] == sep {
        assert ([[]] + rest)[1..] == rest;
      } else if |rest| > 1 {
        var parts := [[s[0]] + rest[0]] + rest[1..];
        assert parts[1..] == rest[1..];
        assert Join(rest, sep) == rest[0] + [sep] + Join(rest[1..], sep);
        assert [s[0]] + s[1..] == s;
      } else {
        assert [s[0]] + s[1..] == s;
      }
    }
  }

  /** A prefix free of separators is glued onto the first part. */
  lemma {:induction false} SplitPrefix(p: string, rest: string, sep: char)
    requires sep !in p
    ensures Split(p + rest, sep) == [p + Split(rest, sep)[0]] + Split(rest, sep)[1..]
  {
    if p != [] {
      assert (p + rest)[1..] == p[1..] + rest;
      SplitPrefix(p[1..], rest, sep);
      assert [p[0]] + (p[1..] + Split(rest, sep)[0]) == p + Split(rest, sep)[0];
    } else {
      var parts := Split(rest, sep);
      assert p + rest == rest;
      assert p + parts[0] == parts[0];
      assert [parts[0]] + parts[1..] == parts;
    }
  }

  /** Parts free of the separator are recovered exactly by splitting their join. */
  lemma {:induction false} SplitJoin(parts: seq<string>, sep: char)
    requires |parts| >= 1
    requires forall k :: 0 <= k < |parts| ==> sep !in parts[k]
    ensures Split(Join(parts, sep), sep) == parts
  {
    if |parts| == 1 {
      SplitPrefix(parts[0], [], sep);
      assert parts[0] + [] == parts[0];
    } else {
      var tail := Join(parts[1..], sep);
      SplitJoin(parts[1..], sep);
      SplitAfterSep(tail, sep);
      assert parts[0] + [sep] + tail == parts[0] + ([sep] + tail);
      SplitPrefix(parts[0], [sep] + tail, sep);
      assert ([[]] + parts[1..])[1..] == parts[1..];
      assert parts[0] + [] == parts[0];
      assert [parts[0]] + parts[1..] == parts;
    }
  }

  /** A leading separator closes an empty first part. */
  lemma SplitAfterSep(tail: string, sep: char)
    ensures Split([sep] + tail, sep) == [[]] + Split(tail, sep)
  {
    assert ([sep] + tail)[1..] == tail;
  }

  /** Every part trimmed: `parts.map((p) => p.trim())`. */
  function TrimAll(parts: seq<string>): (r: seq<string>)
    ensures |r| == |parts|
    ensures forall k :: 0 <= k < |parts| ==> r[k] == Trim(parts[k])
  {
    seq(|parts|, k requires 0 <= k < |parts| => Trim(parts[k]))
  }
}

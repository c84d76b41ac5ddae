/**
 * The text helpers of the mail client's `utils.js`. `escapeHtml` sets a
 * text node and reads back the element's HTML; that serialization is the
 * "escaping a string" algorithm of the WHATWG HTML Living Standard
 * (section "Serializing HTML fragments", text-node case): `&`, U+00A0,
 * `<` and `>` become `&amp;`, `&nbsp;`, `&lt;` and `&gt;`, and every other
 * character is copied. `formatEmailBody` turns newlines into `<br>`.
 */
module HtmlText {
  import opened Text

  const Nbsp: char := '\U{00A0}'

  /** The serialization of one character of a text node. */
  function EscapeChar(c: char): (r: string)
    ensures '<' !in r && '>' !in r
  {
    if c == '&' then "&amp;"
    else if c == Nbsp then "&nbsp;"
    else if c == '<' then "&lt;"
    else if c == '>' then "&gt;"
    else [c]
  }

  /** The characters the serializer rewrites. */
  predicate IsEscaped(c: char) {
    c == '&' || c == Nbsp || c == '<' || c == '>'
  }

  /** The serialization of a text node holding `s`. */
  function Escape(s: string): (r: string)
    ensures |r| >= |s|
    ensures '<' !in r && '>' !in r
  {
    if s == [] then [] else EscapeChar(s[0]) + Escape(s[1..])
  }

  /** `escapeHtml(text)`: the empty (falsy) text gives the empty string, any other its serialization. */
  function EscapeHtml(text: string): (r: string)
    ensures text == [] ==> r == []
    ensures '<' !in r && '>' !in r
  {
    if text == [] then [] else Escape(text)
  }

  /** Reading the four entities back, as an HTML parser does for text. */
  function Unescape(t: string): string
    decreases |t|
  {
    if t == [] then []
    else if StartsWith(t, "&amp;") then "&" + Unescape(t[5..])
    else if StartsWith(t, "&nbsp;") then [Nbsp] + Unescape(t[6..])
    else if StartsWith(t, "&lt;") then "<" + Unescape(t[4..])
    else if StartsWith(t, "&gt;") then ">" + Unescape(t[4..])
    else [t[0]] + Unescape(t[1..])
  }

  lemma UnescapeChar(c: char, rest: string)
    ensures Unescape(EscapeChar(c) + rest) == [c] + Unescape(rest)
  {
    if c == '&' {
      UnescapeAmp(rest);
    } else if c == Nbsp {
      UnescapeNbsp(rest);
    } else if c == '<' {
      UnescapeLt(rest);
    } else if c == '>' {
      UnescapeGt(rest);
    } else {
      UnescapePlain(c, rest);
    }
  }

  lemma UnescapeAmp(rest: string)
    ensures Unescape("&amp;" + rest) == "&" + Unescape(rest)
  {
    var t := "&amp;" + rest;
    assert t[..5] == "&amp;" && t[5..] == rest;
  }

  lemma UnescapeNbsp(rest: string)
    ensures Unescape("&nbsp;" + rest) == [Nbsp] + Unescape(rest)
  {
    var t := "&nbsp;" + rest;
    Mismatch(t, "&amp;", 1);
    assert t[..6] == "&nbsp;" && t[6..] == rest;
  }

  lemma UnescapeLt(rest: string)
    ensures Unescape("&lt;" + rest) == "<" + Unescape(rest)
  {
    var t := "&lt;" + rest;
    Mismatch(t, "&amp;", 1);
    Mismatch(t, "&nbsp;", 1);
    assert t[..4] == "&lt;" && t[4..] == rest;
  }

  lemma UnescapeGt(rest: string)
    ensures Unescape("&gt;" + rest) == ">" + Unescape(rest)
  {
    var t := "&gt;" + rest;
    Mismatch(t, "&amp;", 1);
    Mismatch(t, "&nbsp;", 1);
    Mismatch(t, "&lt;", 1);
    assert t[..4] == "&gt;" && t[4..] == rest;
  }

  /** A character other than `&` is read back as itself. */
  lemma UnescapePlain(c: char, rest: string)
    requires c != '&'
    ensures Unescape([c] + rest) == [c] + Unescape(rest)
  {
    var t := [c] + rest;
    Mismatch(t, "&amp;", 0);
    Mismatch(t, "&nbsp;", 0);
    Mismatch(t, "&lt;", 0);
    Mismatch(t, "&gt;", 0);
    assert t[1..] == rest;
  }

  /** A string that differs from `prefix` at position `k` does not start with it. */
  lemma Mismatch(t: string, prefix: string, k: nat)
    requires k < |t| && k < |prefix| && t[k] != prefix[k]
    ensures !StartsWith(t, prefix)
  {
    if |prefix| <= |t| {
      assert t[..|prefix|][k] == t[k];
    }
  }

  /** Escaping loses nothing: unescaping the output gives back the text. */
  lemma {:induction false} UnescapeEscape(s: string)
    ensures Unescape(EscapeHtml(s)) == s
  {
    if s != [] {
      UnescapeEscapeRec(s);
    }
  }

  lemma {:induction false} UnescapeEscapeRec(s: string)
    ensures Unescape(Escape(s)) == s
  {
    if s != [] {
      UnescapeChar(s[0], Escape(s[1..]));
      UnescapeEscapeRec(s[1..]);
      assert [s[0]] + s[1..] == s;
    }
  }

  /** Escaping works character by character, so order is kept. */
  lemma {:induction false} EscapeAppend(a: string, b: string)
    ensures Escape(a + b) == Escape(a) + Escape(b)
  {
    if a == [] {
      assert a + b == b;
    } else {
      assert (a + b)[1..] == a[1..] + b;
      EscapeAppend(a[1..], b);
    }
  }

  /** Text without `&`, U+00A0, `<` or `>` comes out unchanged. */
  lemma {:induction false} EscapePlain(s: string)
    requires forall c :: c in s ==> !IsEscaped(c)
    ensures EscapeHtml(s) == s
  {
    if s != [] {
      assert s[0] in s;
      assert forall c :: c in s[1..] ==> c in s;
      EscapePlain(s[1..]);
      assert EscapeChar(s[0]) == [s[0]];
      assert Escape(s) == [s[0]] + s[1..];
    }
  }

  const NoContent: string := "<em>(No content)</em>"
  const Br: string := "<br>"

  /** The number of newline characters in `s`. */
  function Newlines(s: string): nat {
    if s == [] then 0 else (if s[0] == '\n' then 1 else 0) + Newlines(s[1..])
  }

  /** `s.replace(/\n/g, '<br>')`. */
  function NewlinesToBr(s: string): (r: string)
    ensures '\n' !in r
    ensures |r| == |s| + 3 * Newlines(s)
  {
    if s == [] then [] else (if s[0] == '\n' then Br else [s[0]]) + NewlinesToBr(s[1..])
  }

  /** `formatEmailBody(body)`. */
  function FormatEmailBody(body: string): (r: string)
    ensures body == [] ==> r == NoContent
    ensures '\n' !in r
    ensures body != [] ==> |r| == |body| + 3 * Newlines(body)
  {
    if body == [] then NoContent else NewlinesToBr(body)
  }

  /** `t.replace(/<br>/g, '\n')`: every `<br>`, left to right, back to a newline. */
  function BrToNewlines(t: string): string
    decreases |t|
  {
    if t == [] then []
    else if StartsWith(t, Br) then "\n" + BrToNewlines(t[4..])
    else [t[0]] + BrToNewlines(t[1..])
  }

  /** `s` holds the four characters `<br>` somewhere. */
  predicate HasBr(s: string) {
    exists i | 0 <= i <= |s| - 4 :: BrAt(s, i)
  }

  /** The four characters of `s` from index `i` on are `<br>`. */
  predicate BrAt(s: string, i: int)
    requires 0 <= i <= |s| - 4
  {
    s[i] == '<' && s[i + 1] == 'b' && s[i + 2] == 'r' && s[i + 3] == '>'
  }

  lemma StartsWithBr(t: string)
    ensures StartsWith(t, Br) <==> |t| >= 4 && BrAt(t, 0)
  {
    if |t| >= 4 && BrAt(t, 0) {
      assert t[..4] == Br;
    }
  }

  lemma HasBrTail(s: string)
    requires s != [] && !HasBr(s)
    ensures !HasBr(s[1..])
  {
    if HasBr(s[1..]) {
      var i :| 0 <= i <= |s[1..]| - 4 && BrAt(s[1..], i);
      assert BrAt(s, i + 1);
    }
  }

  lemma HeadOfNewlinesToBr(s: string)
    requires s != [] && s[0] != '\n'
    ensures NewlinesToBr(s) == [s[0]] + NewlinesToBr(s[1..])
  {
  }

  /** A converted text starts with `<br>` only where the text had a newline or a literal `<br>`. */
  lemma NoBrAtStart(s: string)
    requires s != [] && s[0] != '\n' && !HasBr(s)
    ensures !StartsWith(NewlinesToBr(s), Br)
  {
    StartsWithBr(NewlinesToBr(s));
    if s[0] == '<' && |NewlinesToBr(s)| >= 4 {
      // The three characters after `<` come from s[1], s[2] and s[3], unless
      // one of them is a newline, which turns into a `<` and spoils the match.
      HeadOfNewlinesToBr(s);
      var t1 := NewlinesToBr(s[1..]);
      if s[1] == '\n' {
        assert t1[0] == '<';
      } else {
        HeadOfNewlinesToBr(s[1..]);
        assert s[1..][1..] == s[2..];
        var t2 := NewlinesToBr(s[2..]);
        if s[2] == '\n' {
          assert t2[0] == '<';
        } else {
          HeadOfNewlinesToBr(s[2..]);
          assert s[2..][1..] == s[3..];
          var t3 := NewlinesToBr(s[3..]);
          if s[3] == '\n' {
            assert t3[0] == '<';
          } else {
            HeadOfNewlinesToBr(s[3..]);
            assert !BrAt(s, 0);
          }
        }
      }
    }
  }

  /**
   * For a body without a literal `<br>`, turning every `<br>` of the
   * formatted body back into a newline gives the body.
   */
  lemma {:induction false} BrToNewlinesInverts(s: string)
    requires !HasBr(s)
    ensures BrToNewlines(NewlinesToBr(s)) == s
  {
    if s != [] {
      HasBrTail(s);
      BrToNewlinesInverts(s[1..]);
      var t := NewlinesToBr(s);
      if s[0] == '\n' {
        assert t == Br + NewlinesToBr(s[1..]);
        assert t[4..] == NewlinesToBr(s[1..]);
      } else {
        HeadOfNewlinesToBr(s);
        NoBrAtStart(s);
        assert t[1..] == NewlinesToBr(s[1..]);
      }
      assert [s[0]] + s[1..] == s;
    }
  }

  /** The same for `formatEmailBody` of a non-empty body. */
  lemma FormatEmailBodyRoundTrip(body: string)
    requires body != [] && !HasBr(body)
    ensures BrToNewlines(FormatEmailBody(body)) == body
  {
    BrToNewlinesInverts(body);
  }
}

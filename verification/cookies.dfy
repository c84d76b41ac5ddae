/**
 * `getCookie` of the inbox script: the value of a named cookie in the
 * browser's cookie string, used to read the CSRF token. The cookie string
 * has the shape of section 5.4 of RFC 6265 (`name=value` pairs separated
 * by `; `). `decodeURIComponent` is a parameter `decode`; its failure on
 * malformed percent-escapes is not modelled.
 */
module Cookies {
  import opened Wrappers
  import opened Text

  /** The trimmed `;`-separated entries of a cookie string. */
  function Entries(cookie: string): seq<string> {
    TrimAll(Split(cookie, ';'))
  }

  /**
   * `entry.substring(0, name.length + 1) === name + '='`: since `substring`
   * clamps to the entry's length, this is a prefix test. `name + '='` is a
   * whole number of characters, so counting in UTF-16 units or in
   * characters gives the same test.
   */
  function Names(entry: string, name: string): (b: bool)
    ensures b <==> StartsWith(entry, name + "=")
  {
    Substring(entry, 0, |name| + 1) == name + "="
  }

  /** Entry `k` is the first entry that names `name`. */
  predicate FirstNaming(entries: seq<string>, name: string, k: int) {
    && 0 <= k < |entries|
    && Names(entries[k], name)
    && forall j :: 0 <= j < k ==> !Names(entries[j], name)
  }

  /** The decoded value of the first entry naming `name`, scanning in order. */
  function FirstMatch(entries: seq<string>, name: string, decode: string -> string): (r: Option<string>)
    ensures r.None? <==> forall k :: 0 <= k < |entries| ==> !Names(entries[k], name)
    ensures r.Some? ==> exists k :: FirstNaming(entries, name, k) && r.value == decode(entries[k][|name| + 1..])
  {
    if entries == [] then None
    else if Names(entries[0], name) then
      assert FirstNaming(entries, name, 0);
      Some(decode(entries[0][|name| + 1..]))
    else
      var r := FirstMatch(entries[1..], name, decode);
      if r.Some? then
        var k :| FirstNaming(entries[1..], name, k) && r.value == decode(entries[1..][k][|name| + 1..]);
        assert FirstNaming(entries, name, k + 1);
        r
      else
        assert forall k :: 1 <= k < |entries| ==> entries[k] == entries[1..][k - 1];
        r
  }

  /**
   * `getCookie(name)` over the cookie string `cookie`: null for an empty
   * cookie string, otherwise the decoded rest of the first trimmed entry
   * that starts with `name=`, or null when none does.
   */
  function GetCookie(cookie: string, name: string, decode: string -> string): (r: Option<string>)
    ensures cookie == [] ==> r == None
    ensures r.None? <==> cookie == [] || forall k :: 0 <= k < |Entries(cookie)| ==> !Names(Entries(cookie)[k], name)
    ensures r.Some? ==>
      exists k :: FirstNaming(Entries(cookie), name, k) && r.value == decode(Entries(cookie)[k][|name| + 1..])
  {
    if cookie == [] then None else FirstMatch(Entries(cookie), name, decode)
  }

  /** One `name=value` pair of a cookie string. */
  datatype Cookie = Cookie(name: string, value: string)

  /** A cookie name: non-empty, without white space, `=` or `;` (a token of RFC 6265). */
  predicate IsCookieName(s: string) {
    |s| > 0 && forall c :: c in s ==> !IsSpace(c) && c != '=' && c != ';'
  }

  /** A cookie value: no white space and no `;` (cookie-octets of RFC 6265). */
  predicate IsCookieValue(s: string) {
    forall c :: c in s ==> !IsSpace(c) && c != ';'
  }

  predicate WellFormed(cookies: seq<Cookie>) {
    forall k :: 0 <= k < |cookies| ==> IsCookieName(cookies[k].name) && IsCookieValue(cookies[k].value)
  }

  function PairText(c: Cookie): string {
    c.name + "=" + c.value
  }

  /** The `; `-separated pieces of a cookie string, before joining on `;`. */
  function Pieces(cookies: seq<Cookie>): seq<string> {
    seq(|cookies|, k requires 0 <= k < |cookies| => (if k == 0 then "" else " ") + PairText(cookies[k]))
  }

  /** The cookie string a browser presents for `cookies` (section 5.4 of RFC 6265). */
  function CookieString(cookies: seq<Cookie>): string {
    if cookies == [] then "" else Join(Pieces(cookies), ';')
  }

  /** The value of the first cookie called `name`: the reference lookup. */
  function Lookup(cookies: seq<Cookie>, name: string): Option<string> {
    if cookies == [] then None
    else if cookies[0].name == name then Some(cookies[0].value)
    else Lookup(cookies[1..], name)
  }

  /** A well-formed cookie string splits back into its `name=value` pairs. */
  lemma EntriesOfCookieString(cookies: seq<Cookie>)
    requires cookies != [] && WellFormed(cookies)
    ensures Entries(CookieString(cookies)) == seq(|cookies|, k requires 0 <= k < |cookies| => PairText(cookies[k]))
  {
    var pieces := Pieces(cookies);
    PiecesHaveNoSemicolon(cookies);
    SplitJoin(pieces, ';');
    assert Split(CookieString(cookies), ';') == pieces;
    TrimPieces(cookies);
  }

  lemma PiecesHaveNoSemicolon(cookies: seq<Cookie>)
    requires WellFormed(cookies)
    ensures forall k :: 0 <= k < |Pieces(cookies)| ==> ';' !in Pieces(cookies)[k]
  {
    forall k | 0 <= k < |Pieces(cookies)| ensures ';' !in Pieces(cookies)[k] {
      PieceHasNoSemicolon(cookies, k);
    }
  }

  /** Trimming each piece leaves its `name=value` text. */
  lemma TrimPieces(cookies: seq<Cookie>)
    requires WellFormed(cookies)
    ensures TrimAll(Pieces(cookies)) == seq(|cookies|, k requires 0 <= k < |cookies| => PairText(cookies[k]))
  {
    forall k | 0 <= k < |cookies| ensures Trim(Pieces(cookies)[k]) == PairText(cookies[k]) {
      TrimPiece(cookies, k);
    }
  }

  lemma PieceHasNoSemicolon(cookies: seq<Cookie>, k: int)
    requires WellFormed(cookies) && 0 <= k < |cookies|
    ensures ';' !in Pieces(cookies)[k]
  {
    var c := cookies[k];
    assert Pieces(cookies)[k] == (if k == 0 then "" else " ") + c.name + "=" + c.value;
  }

  lemma TrimPiece(cookies: seq<Cookie>, k: int)
    requires WellFormed(cookies) && 0 <= k < |cookies|
    ensures Trim(Pieces(cookies)[k]) == PairText(cookies[k])
  {
    var t := PairText(cookies[k]);
    PairEnds(cookies[k]);
    TrimTrimmed(t);
    if k > 0 {
      assert Pieces(cookies)[k] == " " + t;
      TrimLeadingSpace(t);
    }
  }

  /** A pair's text starts with its name and ends with its value or `=`, so no white space at either end. */
  lemma PairEnds(c: Cookie)
    requires IsCookieName(c.name) && IsCookieValue(c.value)
    ensures var t := PairText(c); |t| > 0 && !IsSpace(t[0]) && !IsSpace(t[|t| - 1])
  {
    var t := PairText(c);
    assert t[0] == c.name[0] && c.name[0] in c.name;
    if c.value == [] {
      assert t[|t| - 1] == '=';
    } else {
      assert t[|t| - 1] == c.value[|c.value| - 1];
      assert c.value[|c.value| - 1] in c.value;
    }
  }


  /** A pair's text names `name` exactly when the pair is called `name`. */
  lemma NamesPair(c: Cookie, name: string)
    requires IsCookieName(c.name) && '=' !in name
    ensures Names(PairText(c), name) <==> c.name == name
  {
    var t := PairText(c);
    var n := |c.name|;
    if |name| < n {
      assert c.name[|name|] in c.name;
      assert t[|name|] != '=';
    } else if |name| > n {
      assert name[n] in name;
      assert t[n] == '=' != name[n];
    } else {
      assert t[..n] == c.name;
    }
  }

  lemma {:induction false} FirstMatchPairs(cookies: seq<Cookie>, name: string, decode: string -> string)
    requires WellFormed(cookies) && '=' !in name
    ensures FirstMatch(seq(|cookies|, k requires 0 <= k < |cookies| => PairText(cookies[k])), name, decode)
      == (match Lookup(cookies, name) case Some(v) => Some(decode(v)) case None => None)
  {
    var entries := seq(|cookies|, k requires 0 <= k < |cookies| => PairText(cookies[k]));
    if cookies != [] {
      NamesPair(cookies[0], name);
      var tail := seq(|cookies[1..]|, k requires 0 <= k < |cookies[1..]| => PairText(cookies[1..][k]));
      assert entries[1..] == tail;
      FirstMatchPairs(cookies[1..], name, decode);
      if cookies[0].name == name {
        assert entries[0][|name| + 1..] == cookies[0].value;
      }
    }
  }

  /**
   * Looking a name up in a well-formed cookie string finds the decoded value
   * of the first cookie of that name, and null when there is none.
   */
  lemma GetCookieOfCookieString(cookies: seq<Cookie>, name: string, decode: string -> string)
    requires WellFormed(cookies) && '=' !in name
    ensures GetCookie(CookieString(cookies), name, decode)
      == (match Lookup(cookies, name) case Some(v) => Some(decode(v)) case None => None)
  {
    if cookies != [] {
      EntriesOfCookieString(cookies);
      var pieces := Pieces(cookies);
      assert CookieString(cookies) != [] by {
        assert |pieces[0]| > 0;
        JoinSplitNonEmpty(pieces);
      }
      FirstMatchPairs(cookies, name, decode);
    }
  }

  lemma JoinSplitNonEmpty(pieces: seq<string>)
    requires |pieces| >= 1 && |pieces[0]| > 0
    ensures |Join(pieces, ';')| > 0
  {
  }
}

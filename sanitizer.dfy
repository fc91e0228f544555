/** `sanitizeInput`: the text is placed in a detached element as its text
    content and read back as markup. Serialising a text node escapes it as the
    HTML Living Standard prescribes in section 13.3, "Serializing HTML
    fragments" (escaping a string, not in attribute mode): `&` becomes
    `&amp;`, U+00A0 becomes `&nbsp;`, `<` becomes `&lt;`, `>` becomes `&gt;`,
    and every other character is kept. */
module Sanitizer {

  const Nbsp: char := '\U{00A0}'

  /** The characters that serialisation replaces by an entity. */
  predicate IsSpecial(c: char) {
    c == '&' || c == Nbsp || c == '<' || c == '>'
  }

  function EscapeChar(c: char): (r: string)
    ensures |r| >= 1
    ensures r[0] == '&' <==> IsSpecial(c)
  {
    if c == '&' then "&amp;"
    else if c == Nbsp then "&nbsp;"
    else if c == '<' then "&lt;"
    else if c == '>' then "&gt;"
    else [c]
  }

  /** The markup that `sanitizeInput` returns for `s`. */
  function Sanitize(s: string): (r: string)
    ensures |r| >= |s|
  {
    if s == [] then [] else EscapeChar(s[0]) + Sanitize(s[1..])
  }

  /** Reads markup produced by Sanitize back into text: the four entities are
      decoded and every other character is kept. */
  function Unescape(t: string): (r: string)
    decreases |t|
  {
    if t == [] then []
    else if |t| >= 5 && t[..5] == "&amp;" then ['&'] + Unescape(t[5..])
    else if |t| >= 6 && t[..6] == "&nbsp;" then [Nbsp] + Unescape(t[6..])
    else if |t| >= 4 && t[..4] == "&lt;" then ['<'] + Unescape(t[4..])
    else if |t| >= 4 && t[..4] == "&gt;" then ['>'] + Unescape(t[4..])
    else [t[0]] + Unescape(t[1..])
  }

  /** Decoding an entity followed by more markup. */
  lemma UnescapeEntity(e: string, c: char, rest: string)
    requires (e, c) in {("&amp;", '&'), ("&nbsp;", Nbsp), ("&lt;", '<'), ("&gt;", '>')}
    ensures Unescape(e + rest) == [c] + Unescape(rest)
  {
    var t := e + rest;
    assert t[..|e|] == e && t[|e|..] == rest;
    assert t[1] == e[1];
  }

  /** Decoding a character that does not start an entity. */
  lemma UnescapePlain(c: char, rest: string)
    requires c != '&'
    ensures Unescape([c] + rest) == [c] + Unescape(rest)
  {
    var t := [c] + rest;
    assert t[0] == c && t[1..] == rest;
  }

  /** Decoding the escape of one character gives that character back and
      leaves the rest of the markup to be decoded. */
  lemma UnescapeStep(c: char, rest: string)
    ensures Unescape(EscapeChar(c) + rest) == [c] + Unescape(rest)
  {
    if IsSpecial(c) {
      UnescapeEntity(EscapeChar(c), c, rest);
    } else {
      UnescapePlain(c, rest);
    }
  }

  /** Sanitising loses nothing: the original text is recovered from the markup. */
  lemma {:induction false} UnescapeSanitize(s: string)
    ensures Unescape(Sanitize(s)) == s
  {
    if s != [] {
      UnescapeSanitize(s[1..]);
      UnescapeStep(s[0], Sanitize(s[1..]));
      assert s == [s[0]] + s[1..];
    }
  }

  /** The markup holds no tag delimiter, so it cannot open an element. */
  lemma {:induction false} SanitizeHasNoAngleBrackets(s: string)
    ensures forall k :: 0 <= k < |Sanitize(s)| ==> Sanitize(s)[k] != '<' && Sanitize(s)[k] != '>'
  {
    if s != [] {
      SanitizeHasNoAngleBrackets(s[1..]);
      var e, rest := EscapeChar(s[0]), Sanitize(s[1..]);
      assert Sanitize(s) == e + rest;
      assert forall k :: 0 <= k < |e| ==> e[k] != '<' && e[k] != '>';
    }
  }

  /** Sanitising changes a text exactly when it holds one of the four special
      characters. */
  lemma {:induction false} SanitizeIdentityIff(s: string)
    ensures Sanitize(s) == s <==> forall k :: 0 <= k < |s| ==> !IsSpecial(s[k])
  {
    if s != [] {
      SanitizeIdentityIff(s[1..]);
      var e, rest := EscapeChar(s[0]), Sanitize(s[1..]);
      assert Sanitize(s) == e + rest;
      if IsSpecial(s[0]) {
        assert |e| > 1;
        assert |Sanitize(s)| > |s|;
      } else {
        assert e == [s[0]];
        assert s == [s[0]] + s[1..];
        assert forall k :: 1 <= k < |s| ==> s[k] == s[1..][k - 1];
      }
    }
  }

  /** Sanitising distributes over concatenation, so each piece of a text is
      escaped on its own. */
  lemma {:induction false} SanitizeAppend(a: string, b: string)
    ensures Sanitize(a + b) == Sanitize(a) + Sanitize(b)
  {
    if a != [] {
      assert (a + b)[0] == a[0] && (a + b)[1..] == a[1..] + b;
      SanitizeAppend(a[1..], b);
    } else {
      assert a + b == b;
    }
  }
}

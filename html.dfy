/** Go's `html.EscapeString`, which the User model applies to the e-mail
    address: it rewrites exactly five characters into entities and leaves
    every other character alone. `Unescape` is the decoder of exactly
    those five entities and serves as its inverse.
 */
module Html {
  import opened Text

  /** The five characters `html.EscapeString` rewrites. */
  predicate IsSpecial(c: char) {
    c == '<' || c == '>' || c == '&' || c == '\'' || c == '"'
  }

  /** The replacement of one character. */
  function EscapeChar(c: char): (r: string)
    ensures IsSpecial(c) ==> |r| > 1 && r[0] == '&' && r[|r| - 1] == ';'
    ensures !IsSpecial(c) ==> r == [c]
  {
    if c == '<' then "&lt;"
    else if c == '>' then "&gt;"
    else if c == '&' then "&amp;"
    else if c == '\'' then "&#39;"
    else if c == '"' then "&#34;"
    else [c]
  }

  /** `html.EscapeString`: every character replaced, left to right. */
  function Escape(s: string): (r: string)
    decreases |s|
  {
    if s == [] then [] else EscapeChar(s[0]) + Escape(s[1..])
  }

  /** `t` begins with one of the five entities `Escape` produces. */
  predicate StartsWithEntity(t: string) {
    "&lt;" <= t || "&gt;" <= t || "&amp;" <= t || "&#39;" <= t || "&#34;" <= t
  }

  /** No raw `<`, `>`, `'` or `"` occurs in `t`. */
  predicate NoRawMarkup(t: string) {
    forall i :: 0 <= i < |t| ==> t[i] != '<' && t[i] != '>' && t[i] != '\'' && t[i] != '"'
  }

  /** Every `&` of `t` opens one of the five entities. */
  predicate AmpersandsOpenEntities(t: string) {
    forall i :: 0 <= i < |t| && t[i] == '&' ==> StartsWithEntity(t[i..])
  }

  /** The strings `Escape` can produce. */
  predicate IsEscaped(t: string) {
    NoRawMarkup(t) && AmpersandsOpenEntities(t)
  }

  /** Decodes the five entities `Escape` produces; any other character,
      including an `&` that opens none of them, is copied. */
  function Unescape(t: string): (r: string)
    decreases |t|
  {
    if t == [] then []
    else if "&lt;" <= t then "<" + Unescape(t[4..])
    else if "&gt;" <= t then ">" + Unescape(t[4..])
    else if "&amp;" <= t then "&" + Unescape(t[5..])
    else if "&#39;" <= t then "'" + Unescape(t[5..])
    else if "&#34;" <= t then "\"" + Unescape(t[5..])
    else [t[0]] + Unescape(t[1..])
  }

  /** Decoding the replacement of `c` in front of any text gives back `c`
      and then the decoding of that text. */
  lemma UnescapeEscapeChar(c: char, rest: string)
    ensures Unescape(EscapeChar(c) + rest) == [c] + Unescape(rest)
  {
    var e := EscapeChar(c);
    var t := e + rest;
    assert t[|e|..] == rest;
    assert t[0] == e[0];
    if IsSpecial(c) {
      assert t[..|e|] == e;
      assert t[1] == e[1];
      if c == '&' {
        assert !("&lt;" <= t) && !("&gt;" <= t);
      } else if c == '\'' || c == '"' {
        assert t[2] == e[2] && t[3] == e[3];
        assert !("&lt;" <= t) && !("&gt;" <= t) && !("&amp;" <= t);
      }
    }
  }

  /** Escaping loses nothing: `Unescape` undoes it. */
  lemma {:induction false} UnescapeEscape(s: string)
    ensures Unescape(Escape(s)) == s
    decreases |s|
  {
    if s != [] {
      UnescapeEscapeChar(s[0], Escape(s[1..]));
      UnescapeEscape(s[1..]);
    }
  }

  /** Two different strings never escape to the same text. */
  lemma EscapeInjective(s1: string, s2: string)
    ensures Escape(s1) == Escape(s2) <==> s1 == s2
  {
    if Escape(s1) == Escape(s2) {
      UnescapeEscape(s1);
      UnescapeEscape(s2);
    }
  }

  /** Escaping never shortens, and it lengthens exactly when some character
      is rewritten. */
  lemma {:induction false} EscapeLength(s: string)
    ensures |Escape(s)| >= |s|
    ensures |Escape(s)| == |s| <==> forall i :: 0 <= i < |s| ==> !IsSpecial(s[i])
    decreases |s|
  {
    if s != [] {
      EscapeLength(s[1..]);
      assert forall i :: 1 <= i < |s| ==> s[i] == s[1..][i - 1];
    }
  }

  /** A string is left as it is exactly when it holds none of the five
      characters; in particular escaping twice differs from escaping once
      whenever the input holds one of them. */
  lemma {:induction false} EscapeFixedPoint(s: string)
    ensures Escape(s) == s <==> forall i :: 0 <= i < |s| ==> !IsSpecial(s[i])
    decreases |s|
  {
    EscapeLength(s);
    if s != [] && forall i :: 0 <= i < |s| ==> !IsSpecial(s[i]) {
      assert forall i :: 0 <= i < |s| - 1 ==> !IsSpecial(s[1..][i]);
      EscapeFixedPoint(s[1..]);
    }
  }

  /** The empty string is the only one that escapes to "". */
  lemma EscapeEmpty(s: string)
    ensures Escape(s) == [] <==> s == []
  {
    EscapeLength(s);
  }

  /** An escaped string prefixed by the replacement of one more character
      is still escaped. */
  lemma EscapedCons(c: char, rest: string)
    requires IsEscaped(rest)
    ensures IsEscaped(EscapeChar(c) + rest)
  {
    var e := EscapeChar(c);
    var t := e + rest;
    forall i | 0 <= i < |t|
      ensures t[i] != '<' && t[i] != '>' && t[i] != '\'' && t[i] != '"'
      ensures t[i] == '&' ==> StartsWithEntity(t[i..])
    {
      if i < |e| {
        assert t[i] == e[i];
        if i == 0 && t[i] == '&' {
          assert t[..|e|] == e;
        }
      } else {
        assert t[i] == rest[i - |e|];
        assert t[i..] == rest[i - |e|..];
      }
    }
  }

  /** What `Escape` produces holds no raw markup character, and each `&` in
      it opens one of the five entities. */
  lemma {:induction false} EscapeIsEscaped(s: string)
    ensures IsEscaped(Escape(s))
    decreases |s|
  {
    if s != [] {
      EscapeIsEscaped(s[1..]);
      EscapedCons(s[0], Escape(s[1..]));
    }
  }

  /** The first step of `Unescape` on an escaped string: it reads the
      replacement of one character `c`, `n` characters long. */
  lemma UnescapeHead(t: string) returns (n: nat, c: char)
    requires t != [] && IsEscaped(t)
    ensures 0 < n <= |t| && t[..n] == EscapeChar(c)
    ensures Unescape(t) == [c] + Unescape(t[n..])
  {
    if "&lt;" <= t { n, c := 4, '<'; }
    else if "&gt;" <= t { n, c := 4, '>'; }
    else if "&amp;" <= t { n, c := 5, '&'; }
    else if "&#39;" <= t { n, c := 5, '\''; }
    else if "&#34;" <= t { n, c := 5, '"'; }
    else {
      n, c := 1, t[0];
      assert t[..1] == [t[0]];
    }
  }

  /** Every suffix of an escaped string is escaped. */
  lemma EscapedSuffix(t: string, n: nat)
    requires n <= |t| && IsEscaped(t)
    ensures IsEscaped(t[n..])
  {
    forall i | 0 <= i < |t| - n ensures t[n..][i] == t[n + i] && t[n..][i..] == t[n + i..] { }
  }

  /** Every escaped string is the escape of its decoding, so `IsEscaped`
      describes exactly the strings `Escape` can produce. */
  lemma {:induction false} EscapeUnescape(t: string)
    requires IsEscaped(t)
    ensures Escape(Unescape(t)) == t
    decreases |t|
  {
    if t != [] {
      var n, c := UnescapeHead(t);
      EscapedSuffix(t, n);
      EscapeUnescape(t[n..]);
      var u := Unescape(t[n..]);
      assert ([c] + u)[0] == c && ([c] + u)[1..] == u;
      calc {
        Escape(Unescape(t));
        Escape([c] + u);
        EscapeChar(c) + Escape(u);
        t[..n] + t[n..];
        t;
      }
    }
  }

  /** The first and last characters of an escape are those of the first and
      last replacements. */
  lemma {:induction false} EscapeEnds(s: string)
    requires s != []
    ensures Escape(s) != []
    ensures Escape(s)[0] == EscapeChar(s[0])[0]
    ensures Escape(s)[|Escape(s)| - 1] == EscapeChar(s[|s| - 1])[|EscapeChar(s[|s| - 1])| - 1]
    decreases |s|
  {
    if |s| > 1 {
      EscapeEnds(s[1..]);
    } else {
      assert Escape(s) == EscapeChar(s[0]);
    }
  }

  /** Escaping adds no white space at either end: the replacements begin
      with `&` and end with `;`. */
  lemma EscapeKeepsEnds(s: string)
    requires NoSurroundingSpace(s)
    ensures NoSurroundingSpace(Escape(s))
  {
    if s != [] {
      EscapeEnds(s);
    }
  }
}

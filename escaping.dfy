/**
 * `xml.sax.saxutils.escape` with no extra entities, as the pretty printer calls it on attribute
 * values and text: `&` becomes `&amp;`, then `>` becomes `&gt;`, then `<` becomes `&lt;`, each
 * by a replace over the whole string. Every other character, quotes included, is left alone.
 */
module Escaping {

  /** `s.replace(c, rep)` for a single character `c`: every `c`, left to right, becomes `rep`. */
  function ReplaceAll(s: string, c: char, rep: string): string
  {
    if s == [] then [] else (if s[0] == c then rep else [s[0]]) + ReplaceAll(s[1..], c, rep)
  }

  /** Replacing in two halves is replacing in the whole. */
  lemma {:induction false} ReplaceAllConcat(a: string, b: string, c: char, rep: string)
    ensures ReplaceAll(a + b, c, rep) == ReplaceAll(a, c, rep) + ReplaceAll(b, c, rep)
  {
    if a != [] {
      assert (a + b)[0] == a[0] && (a + b)[1..] == a[1..] + b;
      ReplaceAllConcat(a[1..], b, c, rep);
    } else {
      assert a + b == b;
    }
  }

  /** The three replaces, in the library's order. */
  function Escape(s: string): string
  {
    ReplaceAll(ReplaceAll(ReplaceAll(s, '&', "&amp;"), '>', "&gt;"), '<', "&lt;")
  }

  /** What one character turns into. */
  function EscapeChar(x: char): string
  {
    if x == '&' then "&amp;" else if x == '<' then "&lt;" else if x == '>' then "&gt;" else [x]
  }

  /** Escaping character by character: the reference the sequential replaces are held to. */
  function EscapeEach(s: string): string
  {
    if s == [] then [] else EscapeChar(s[0]) + EscapeEach(s[1..])
  }

  /**
   * The replaces never interfere: `&` goes first, so the `&` of the entities written later is
   * not escaped again, and no replacement text holds a `<` or `>` for a later replace to find.
   */
  lemma {:induction false} EscapeIsPerCharacter(s: string)
    ensures Escape(s) == EscapeEach(s)
  {
    if s != [] {
      assert s == [s[0]] + s[1..];
      EscapeConcat([s[0]], s[1..]);
      EscapeOne(s[0]);
      EscapeIsPerCharacter(s[1..]);
    }
  }

  /** Escaping a string in two halves is escaping the whole. */
  lemma EscapeConcat(a: string, b: string)
    ensures Escape(a + b) == Escape(a) + Escape(b)
  {
    ReplaceAllConcat(a, b, '&', "&amp;");
    var a1, b1 := ReplaceAll(a, '&', "&amp;"), ReplaceAll(b, '&', "&amp;");
    ReplaceAllConcat(a1, b1, '>', "&gt;");
    ReplaceAllConcat(ReplaceAll(a1, '>', "&gt;"), ReplaceAll(b1, '>', "&gt;"), '<', "&lt;");
  }

  /** The three replaces applied to one character. */
  lemma EscapeOne(x: char)
    ensures Escape([x]) == EscapeChar(x)
  {
    ReplaceOne(x, '&', "&amp;");
    var a1 := ReplaceAll([x], '&', "&amp;");
    if x == '&' {
      ReplaceAbsent(a1, '>', "&gt;");
      ReplaceAbsent(a1, '<', "&lt;");
    } else {
      ReplaceOne(x, '>', "&gt;");
      var b1 := ReplaceAll(a1, '>', "&gt;");
      if x == '>' {
        ReplaceAbsent(b1, '<', "&lt;");
      } else {
        ReplaceOne(x, '<', "&lt;");
      }
    }
  }

  lemma ReplaceOne(x: char, c: char, rep: string)
    ensures ReplaceAll([x], c, rep) == if x == c then rep else [x]
  {
    assert ReplaceAll([x], c, rep) == (if x == c then rep else [x]) + ReplaceAll([], c, rep);
  }

  /** Text without `&`, `<` or `>` is written as it is. */
  lemma EscapePlain(s: string)
    requires '&' !in s && '<' !in s && '>' !in s
    ensures Escape(s) == s
  {
    ReplaceAbsent(s, '&', "&amp;");
    ReplaceAbsent(s, '>', "&gt;");
    ReplaceAbsent(s, '<', "&lt;");
  }

  /** Replacing a character that does not occur changes nothing. */
  lemma {:induction false} ReplaceAbsent(s: string, c: char, rep: string)
    requires c !in s
    ensures ReplaceAll(s, c, rep) == s
  {
    if s != [] {
      ReplaceAbsent(s[1..], c, rep);
      assert s == [s[0]] + s[1..];
    }
  }

  /** The escaped text holds no `<` and no `>`, so it cannot open or close markup. */
  lemma {:induction false} EscapedHasNoAngles(s: string)
    ensures '<' !in Escape(s) && '>' !in Escape(s)
  {
    EscapeIsPerCharacter(s);
    EscapeEachNoAngles(s);
  }

  lemma {:induction false} EscapeEachNoAngles(s: string)
    ensures '<' !in EscapeEach(s) && '>' !in EscapeEach(s)
  {
    if s != [] {
      EscapeEachNoAngles(s[1..]);
    }
  }

  /**
   * Quotes are not escaped: a `"` or `'` is in the escaped text exactly when it is in the
   * original, so a `"` in an attribute value is written as it is, inside the `"` that delimit
   * the value.
   */
  lemma {:induction false} EscapeKeeps(s: string, x: char)
    requires x == '"' || x == '\''
    ensures x in Escape(s) <==> x in s
  {
    EscapeIsPerCharacter(s);
    EscapeEachKeeps(s, x);
  }

  lemma {:induction false} EscapeEachKeeps(s: string, x: char)
    requires x == '"' || x == '\''
    ensures x in EscapeEach(s) <==> x in s
  {
    if s != [] {
      EscapeEachKeeps(s[1..], x);
      assert s == [s[0]] + s[1..];
      assert x in EscapeChar(s[0]) <==> x == s[0];
    }
  }

  /** Reading entities back, left to right, as an XML parser does with character data. */
  function Unescape(s: string): string
  {
    if |s| >= 5 && s[..5] == "&amp;" then "&" + Unescape(s[5..])
    else if |s| >= 4 && s[..4] == "&lt;" then "<" + Unescape(s[4..])
    else if |s| >= 4 && s[..4] == "&gt;" then ">" + Unescape(s[4..])
    else if s == [] then []
    else [s[0]] + Unescape(s[1..])
  }

  /** Escaping loses nothing: reading the entities back gives the original text. */
  lemma {:induction false} UnescapeEscape(s: string)
    ensures Unescape(Escape(s)) == s
  {
    EscapeIsPerCharacter(s);
    UnescapeEscapeEach(s);
  }

  lemma {:induction false} UnescapeEscapeEach(s: string)
    ensures Unescape(EscapeEach(s)) == s
  {
    if s != [] {
      UnescapeEscapeEach(s[1..]);
      UnescapeChar(s[0], EscapeEach(s[1..]));
      assert s == [s[0]] + s[1..];
    }
  }

  /** One escaped character is read back as that character, whatever follows it. */
  lemma UnescapeChar(x: char, t: string)
    ensures Unescape(EscapeChar(x) + t) == [x] + Unescape(t)
  {
    if x == '&' {
      UnescapeAmp(t);
    } else if x == '<' || x == '>' {
      UnescapeAngle(x, t);
    } else {
      UnescapeOther(x, t);
    }
  }

  lemma UnescapeAmp(t: string)
    ensures Unescape("&amp;" + t) == "&" + Unescape(t)
  {
    var e := "&amp;" + t;
    assert e[..5] == "&amp;" && e[5..] == t;
  }

  /** `&lt;` reads back as `<` and `&gt;` as `>`. */
  lemma UnescapeAngle(x: char, t: string)
    requires x == '<' || x == '>'
    ensures Unescape(EscapeChar(x) + t) == [x] + Unescape(t)
  {
    var e := EscapeChar(x) + t;
    assert e[1] == (if x == '<' then 'l' else 'g');
    assert e[..4] == EscapeChar(x) && e[4..] == t;
  }

  lemma UnescapeOther(x: char, t: string)
    requires x != '&'
    ensures Unescape([x] + t) == [x] + Unescape(t)
  {
    var e := [x] + t;
    assert e[0] == x && e[1..] == t;
  }
}

/**
  `escHtml`: the escaping applied to a participant's name before it is placed
  in the table markup. `escHtml` runs four global replaces one after the
  other; this module proves that the chain is the same as escaping each
  character on its own, and that the escaping can be undone.
 */
module Html {
  import opened Text

  /** The four global replaces of `escHtml`, in its order: `&` first, then
      `<`, `>` and `"`. */
  function ReplaceChain(s: string): string {
    ReplaceChar(ReplaceChar(ReplaceChar(ReplaceChar(s, '&', "&amp;"), '<', "&lt;"), '>', "&gt;"), '"', "&quot;")
  }

  /** `escHtml`: the replace chain, which escapes every character on its own
      and leaves no `<`, `>` or `"` behind. */
  function EscHtml(s: string): (r: string)
    ensures r == EscapeEach(s)
    ensures '<' !in r && '>' !in r && '"' !in r
  {
    EscHtmlIsPerCharacter(s);
    EscapeEachHasNoMarkup(s);
    ReplaceChain(s)
  }

  /** The entity a single character becomes. */
  function EscapeChar(c: char): (r: string)
    ensures c !in "&<>\"" ==> r == [c]
    ensures c in "&<>\"" ==> |r| >= 4 && r[0] == '&' && r[|r| - 1] == ';'
  {
    match c
    case '&' => "&amp;"
    case '<' => "&lt;"
    case '>' => "&gt;"
    case '"' => "&quot;"
    case _ => [c]
  }

  /** Escapes every character independently, left to right. */
  function EscapeEach(s: string): string {
    if s == [] then [] else EscapeChar(s[0]) + EscapeEach(s[1..])
  }

  /** The replace chain applied to one character gives that character's entity:
      no later replace rewrites what an earlier one introduced. */
  lemma EscHtmlChar(c: char)
    ensures ReplaceChain([c]) == EscapeChar(c)
  {
    ReplaceCharSingle(c, '&', "&amp;");
    if c == '&' {
      ReplacementsOfAbsentKeep("&amp;", '<', "&lt;", '>', "&gt;", '"', "&quot;");
    } else {
      ReplaceCharSingle(c, '<', "&lt;");
      if c == '<' {
        ReplaceCharAbsent("&lt;", '>', "&gt;");
        ReplaceCharAbsent("&lt;", '"', "&quot;");
      } else {
        ReplaceCharSingle(c, '>', "&gt;");
        if c == '>' {
          ReplaceCharAbsent("&gt;", '"', "&quot;");
        } else {
          ReplaceCharSingle(c, '"', "&quot;");
        }
      }
    }
  }

  /** Replacements of characters that do not occur leave a text alone. */
  lemma ReplacementsOfAbsentKeep(s: string, c1: char, r1: string, c2: char, r2: string, c3: char, r3: string)
    requires c1 !in s && c2 !in s && c3 !in s
    ensures ReplaceChar(ReplaceChar(ReplaceChar(s, c1, r1), c2, r2), c3, r3) == s
  {
    ReplaceCharAbsent(s, c1, r1);
    ReplaceCharAbsent(s, c2, r2);
    ReplaceCharAbsent(s, c3, r3);
  }

  /** The four sequential global replaces equal the single
      character-by-character escape. */
  lemma {:induction false} EscHtmlIsPerCharacter(s: string)
    ensures ReplaceChain(s) == EscapeEach(s)
  {
    if s != [] {
      var c, t := s[0], s[1..];
      assert s == [c] + t;
      EscHtmlIsPerCharacter(t);
      EscHtmlChar(c);
      var r1a, r1b := ReplaceChar([c], '&', "&amp;"), ReplaceChar(t, '&', "&amp;");
      ReplaceCharConcat([c], t, '&', "&amp;");
      var r2a, r2b := ReplaceChar(r1a, '<', "&lt;"), ReplaceChar(r1b, '<', "&lt;");
      ReplaceCharConcat(r1a, r1b, '<', "&lt;");
      var r3a, r3b := ReplaceChar(r2a, '>', "&gt;"), ReplaceChar(r2b, '>', "&gt;");
      ReplaceCharConcat(r2a, r2b, '>', "&gt;");
      ReplaceCharConcat(r3a, r3b, '"', "&quot;");
    }
  }

  /** No entity and no plain character other than `&` brings markup. */
  lemma {:induction false} EscapeEachHasNoMarkup(s: string)
    ensures '<' !in EscapeEach(s) && '>' !in EscapeEach(s) && '"' !in EscapeEach(s)
  {
    if s != [] {
      EscapeEachHasNoMarkup(s[1..]);
      var e := EscapeChar(s[0]);
      assert '<' !in e && '>' !in e && '"' !in e;
    }
  }

  predicate HasPrefix(s: string, p: string) {
    |p| <= |s| && s[..|p|] == p
  }

  /** Decodes the four entities `escHtml` produces; every other character,
      including an `&` that starts no entity, stands for itself. */
  function Unescape(s: string): string
    decreases |s|
  {
    if s == [] then []
    else if HasPrefix(s, "&amp;") then "&" + Unescape(s[5..])
    else if HasPrefix(s, "&lt;") then "<" + Unescape(s[4..])
    else if HasPrefix(s, "&gt;") then ">" + Unescape(s[4..])
    else if HasPrefix(s, "&quot;") then "\"" + Unescape(s[6..])
    else [s[0]] + Unescape(s[1..])
  }

  lemma UnescapeStep(c: char, rest: string)
    ensures Unescape(EscapeChar(c) + rest) == [c] + Unescape(rest)
  {
    var e := EscapeChar(c);
    var s := e + rest;
    assert s[..|e|] == e;
    assert s[|e|..] == rest;
    if c !in "&<>\"" {
      assert s[0] == c;
      assert !HasPrefix(s, "&amp;") && !HasPrefix(s, "&lt;") && !HasPrefix(s, "&gt;") && !HasPrefix(s, "&quot;") by {
        assert "&amp;"[0] == '&' && "&lt;"[0] == '&' && "&gt;"[0] == '&' && "&quot;"[0] == '&';
      }
    } else if c == '<' {
      assert !HasPrefix(s, "&amp;") by { assert s[1] == 'l'; }
    } else if c == '>' {
      assert !HasPrefix(s, "&amp;") by { assert s[1] == 'g'; }
      assert !HasPrefix(s, "&lt;") by { assert s[1] == 'g'; }
    } else if c == '"' {
      assert !HasPrefix(s, "&amp;") by { assert s[1] == 'q'; }
      assert !HasPrefix(s, "&lt;") by { assert s[1] == 'q'; }
      assert !HasPrefix(s, "&gt;") by { assert s[1] == 'q'; }
    }
  }

  /** Escaping loses nothing: decoding the escaped name gives the name back. */
  lemma {:induction false} EscHtmlRoundTrip(s: string)
    ensures Unescape(EscHtml(s)) == s
  {
    EscapeEachRoundTrip(s);
  }

  lemma {:induction false} EscapeEachRoundTrip(s: string)
    ensures Unescape(EscapeEach(s)) == s
  {
    if s != [] {
      EscapeEachRoundTrip(s[1..]);
      UnescapeStep(s[0], EscapeEach(s[1..]));
    }
  }
}

/**
 * Escaping of a capture before it is placed in HTML content. The parser
 * puts the capture in a DOM text node and reads back the `innerHTML` of its
 * parent; that serialisation is the "escaping a string" step of the HTML
 * fragment serialisation algorithm (section 13.3 of the HTML Living
 * Standard) in text mode: `&`, U+00A0, `<` and `>` become character
 * references and every other character is kept.
 */
module Escape {

  /** The characters text-mode escaping rewrites. */
  predicate IsEscaped(c: char) {
    c == '&' || c == '\U{A0}' || c == '<' || c == '>'
  }

  function EscapeChar(c: char): (r: string)
    ensures c == '&' ==> r == "&amp;"
    ensures c == '\U{A0}' ==> r == "&nbsp;"
    ensures c == '<' ==> r == "&lt;"
    ensures c == '>' ==> r == "&gt;"
    ensures !IsEscaped(c) ==> r == [c]
  {
    if c == '&' then "&amp;"
    else if c == '\U{A0}' then "&nbsp;"
    else if c == '<' then "&lt;"
    else if c == '>' then "&gt;"
    else [c]
  }

  /** Text-mode escaping of a whole string, character by character. */
  function EscapeText(s: string): (r: string)
    ensures forall i :: 0 <= i < |r| ==> r[i] != '<' && r[i] != '>' && r[i] != '\U{A0}'
    ensures |r| >= |s|
  {
    if s == [] then [] else EscapeChar(s[0]) + EscapeText(s[1..])
  }

  /** Reading the escaped text back as HTML content: the four references become characters again. */
  function Unescape(s: string): string
  {
    if s == [] then []
    else if |s| >= 5 && s[..5] == "&amp;" then "&" + Unescape(s[5..])
    else if |s| >= 6 && s[..6] == "&nbsp;" then "\U{A0}" + Unescape(s[6..])
    else if |s| >= 4 && s[..4] == "&lt;" then "<" + Unescape(s[4..])
    else if |s| >= 4 && s[..4] == "&gt;" then ">" + Unescape(s[4..])
    else [s[0]] + Unescape(s[1..])
  }

  /** A character other than `&` is read back as itself. */
  lemma UnescapePlain(c: char, rest: string)
    requires c != '&'
    ensures Unescape([c] + rest) == [c] + Unescape(rest)
  {
    var t := [c] + rest;
    assert |t| >= 4 ==> t[..4][0] == c;
    assert |t| >= 5 ==> t[..5][0] == c;
    assert |t| >= 6 ==> t[..6][0] == c;
    assert t[1..] == rest;
  }

  /** Each of the four references is read back as the character it stands for. */
  lemma UnescapeReference(c: char, rest: string)
    requires IsEscaped(c)
    ensures Unescape(EscapeChar(c) + rest) == [c] + Unescape(rest)
  {
    var e := EscapeChar(c);
    var t := e + rest;
    assert t[|e|..] == rest;
    if c == '&' {
      assert t[..5] == "&amp;";
    } else if c == '\U{A0}' {
      assert t[..5][1] == 'n' && t[..6] == "&nbsp;";
    } else if c == '<' {
      assert |t| >= 5 ==> t[..5][1] == 'l';
      assert |t| >= 6 ==> t[..6][1] == 'l';
      assert t[..4] == "&lt;";
    } else {
      assert |t| >= 5 ==> t[..5][1] == 'g';
      assert |t| >= 6 ==> t[..6][1] == 'g';
      assert t[..4][1] == 'g' && t[..4] == "&gt;";
    }
  }

  /** Escaping loses nothing: reading the escaped text back gives the capture. */
  lemma {:induction false} UnescapeEscape(s: string)
    ensures Unescape(EscapeText(s)) == s
  {
    if s != [] {
      var c, rest := s[0], EscapeText(s[1..]);
      UnescapeEscape(s[1..]);
      assert EscapeText(s) == EscapeChar(c) + rest;
      if IsEscaped(c) {
        UnescapeReference(c, rest);
      } else {
        UnescapePlain(c, rest);
      }
      assert s == [c] + s[1..];
    }
  }

  /** Escaping changes a string exactly when the string holds one of the four characters. */
  lemma {:induction false} EscapeTextUnchanged(s: string)
    ensures EscapeText(s) == s <==> forall i :: 0 <= i < |s| ==> !IsEscaped(s[i])
  {
    if s != [] {
      EscapeTextUnchanged(s[1..]);
      EscapeTextLonger(s[1..]);
      if IsEscaped(s[0]) {
        assert |EscapeText(s)| > |s|;
      } else {
        assert EscapeText(s) == [s[0]] + EscapeText(s[1..]);
        assert s == [s[0]] + s[1..];
        if EscapeText(s) == s {
          assert EscapeText(s[1..]) == s[1..];
        }
        if forall i :: 0 <= i < |s| ==> !IsEscaped(s[i]) {
          assert forall i :: 0 <= i < |s[1..]| ==> !IsEscaped(s[1..][i]) by {
            forall i | 0 <= i < |s[1..]| ensures !IsEscaped(s[1..][i]) {
              assert s[1..][i] == s[i + 1];
            }
          }
        }
      }
    }
  }

  /** Each of the four characters lengthens the text. */
  lemma {:induction false} EscapeTextLonger(s: string)
    ensures |EscapeText(s)| >= |s| + (if exists i :: 0 <= i < |s| && IsEscaped(s[i]) then 3 else 0)
  {
    if s != [] {
      EscapeTextLonger(s[1..]);
      if exists i :: 0 <= i < |s| && IsEscaped(s[i]) {
        var i :| 0 <= i < |s| && IsEscaped(s[i]);
        if i > 0 {
          assert IsEscaped(s[1..][i - 1]);
        }
      }
    }
  }

  /** Escaping every capture of a match. */
  function EscapeAll(caps: seq<string>): (r: seq<string>)
    ensures |r| == |caps|
    ensures forall k :: 0 <= k < |r| ==> r[k] == EscapeText(caps[k])
  {
    if caps == [] then [] else [EscapeText(caps[0])] + EscapeAll(caps[1..])
  }
}

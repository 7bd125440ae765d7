/**
 * `escapeHtml`: the helper the forum's views pass every title, body and
 * comment through before putting it into markup.
 */
module Html {

  /** The five characters `escapeHtml` replaces. */
  predicate IsSpecial(c: char) {
    c == '&' || c == '<' || c == '>' || c == '"' || c == '\''
  }

  /** The replacement for one character: its entity, or the character itself. */
  function EscapeChar(c: char): (r: string)
    ensures IsSpecial(c) ==> |r| > 1 && r[0] == '&'
    ensures !IsSpecial(c) ==> r == [c]
  {
    match c
    case '&' => "&amp;"
    case '<' => "&lt;"
    case '>' => "&gt;"
    case '"' => "&quot;"
    case '\'' => "&#39;"
    case _ => [c]
  }

  /**
   * `escapeHtml(str)`: every special character replaced by its entity, all
   * others kept. The output holds none of `<`, `>`, `"`, `'`, is never
   * shorter than the input, and is the input itself when the input has no
   * special character.
   */
  function EscapeHtml(s: string): (r: string)
    ensures |r| >= |s|
    ensures forall i :: 0 <= i < |r| ==> r[i] != '<' && r[i] != '>' && r[i] != '"' && r[i] != '\''
    ensures (forall i :: 0 <= i < |s| ==> !IsSpecial(s[i])) ==> r == s
  {
    if s == [] then []
    else
      var head, tail := EscapeChar(s[0]), EscapeHtml(s[1..]);
      assert forall i :: |head| <= i < |head| + |tail| ==> (head + tail)[i] == tail[i - |head|];
      head + tail
  }

  /** Reads the five entities back into their characters; leaves everything else as it is. */
  function Unescape(t: string): (r: string)
    decreases |t|
  {
    if t == [] then []
    else if "&amp;" <= t then ['&'] + Unescape(t[5..])
    else if "&lt;" <= t then ['<'] + Unescape(t[4..])
    else if "&gt;" <= t then ['>'] + Unescape(t[4..])
    else if "&quot;" <= t then ['"'] + Unescape(t[6..])
    else if "&#39;" <= t then ['\''] + Unescape(t[5..])
    else [t[0]] + Unescape(t[1..])
  }

  /** Unescaping reads one escaped character back and goes on with the rest. */
  lemma UnescapeChar(c: char, t: string)
    ensures Unescape(EscapeChar(c) + t) == [c] + Unescape(t)
  {
    var e := EscapeChar(c);
    var et := e + t;
    assert et[|e|..] == t;
    assert e <= et;
    if !IsSpecial(c) {
      assert et[0] == c;
    } else if c == '<' || c == '>' {
      assert et[1] != 'a';
    } else if c == '"' {
      assert et[1] != 'a' && et[1] != 'l' && et[1] != 'g';
    } else if c == '\'' {
      assert et[1] != 'a' && et[1] != 'l' && et[1] != 'g' && et[1] != 'q';
    }
  }

  /** No information is lost: unescaping the output of `EscapeHtml` gives back the input. */
  lemma {:induction false} EscapeRoundTrip(s: string)
    ensures Unescape(EscapeHtml(s)) == s
  {
    if s != [] {
      UnescapeChar(s[0], EscapeHtml(s[1..]));
      EscapeRoundTrip(s[1..]);
    }
  }

  /** Escaping works piece by piece: it commutes with concatenation. */
  lemma {:induction false} EscapeAppend(a: string, b: string)
    ensures EscapeHtml(a + b) == EscapeHtml(a) + EscapeHtml(b)
  {
    if a == [] {
      assert a + b == b;
    } else {
      assert (a + b)[0] == a[0];
      assert (a + b)[1..] == a[1..] + b;
      EscapeAppend(a[1..], b);
      calc {
        EscapeHtml(a + b);
        EscapeChar(a[0]) + EscapeHtml(a[1..] + b);
        EscapeChar(a[0]) + (EscapeHtml(a[1..]) + EscapeHtml(b));
        (EscapeChar(a[0]) + EscapeHtml(a[1..])) + EscapeHtml(b);
        EscapeHtml(a) + EscapeHtml(b);
      }
    }
  }
}

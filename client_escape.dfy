// `escapeHtml` of public/script.js: five global single-character
// replacements, `&` first. The chain is shown equal to a one-pass escaping of
// each character, from which the safety properties follow, and the escaping
// is shown to lose nothing: decoding the five entities gives the input back.

module HtmlEscape {
  import opened Wrappers

  /** `s.replace(/c/g, rep)` for a one-character pattern `c`. */
  function ReplaceAll(s: string, c: char, rep: string): (r: string)
    ensures c !in s ==> r == s
  {
    if s == [] then []
    else (if s[0] == c then rep else [s[0]]) + ReplaceAll(s[1..], c, rep)
  }

  lemma {:induction false} ReplaceAllAppend(a: string, b: string, c: char, rep: string)
    ensures ReplaceAll(a + b, c, rep) == ReplaceAll(a, c, rep) + ReplaceAll(b, c, rep)
  {
    if a == [] {
      assert a + b == b;
    } else {
      var head := if a[0] == c then rep else [a[0]];
      assert (a + b)[0] == a[0];
      assert (a + b)[1..] == a[1..] + b;
      calc {
        ReplaceAll(a + b, c, rep);
        head + ReplaceAll(a[1..] + b, c, rep);
        { ReplaceAllAppend(a[1..], b, c, rep); }
        head + (ReplaceAll(a[1..], c, rep) + ReplaceAll(b, c, rep));
        (head + ReplaceAll(a[1..], c, rep)) + ReplaceAll(b, c, rep);
      }
    }
  }

  /** The replacement chain of lines 430-435, in source order. */
  function ReplaceChain(s: string): string
  {
    ReplaceAll(ReplaceAll(ReplaceAll(ReplaceAll(ReplaceAll(
      s, '&', "&amp;"), '<', "&lt;"), '>', "&gt;"), '"', "&quot;"), '\'', "&#039;")
  }

  /** What one character becomes. */
  function Entity(c: char): string
  {
    match c
    case '&' => "&amp;"
    case '<' => "&lt;"
    case '>' => "&gt;"
    case '"' => "&quot;"
    case '\'' => "&#039;"
    case _ => [c]
  }

  predicate IsSpecial(c: char)
  {
    c == '&' || c == '<' || c == '>' || c == '"' || c == '\''
  }

  /** The one-pass reference: every character replaced by its entity. */
  function EscapeEach(s: string): string
  {
    if s == [] then [] else Entity(s[0]) + EscapeEach(s[1..])
  }

  lemma ChainOfOneChar(c: char)
    ensures ReplaceChain([c]) == Entity(c)
  {
  }

  lemma ChainAppend(a: string, b: string)
    ensures ReplaceChain(a + b) == ReplaceChain(a) + ReplaceChain(b)
  {
    var a1, b1 := ReplaceAll(a, '&', "&amp;"), ReplaceAll(b, '&', "&amp;");
    ReplaceAllAppend(a, b, '&', "&amp;");
    var a2, b2 := ReplaceAll(a1, '<', "&lt;"), ReplaceAll(b1, '<', "&lt;");
    ReplaceAllAppend(a1, b1, '<', "&lt;");
    var a3, b3 := ReplaceAll(a2, '>', "&gt;"), ReplaceAll(b2, '>', "&gt;");
    ReplaceAllAppend(a2, b2, '>', "&gt;");
    var a4, b4 := ReplaceAll(a3, '"', "&quot;"), ReplaceAll(b3, '"', "&quot;");
    ReplaceAllAppend(a3, b3, '"', "&quot;");
    ReplaceAllAppend(a4, b4, '\'', "&#039;");
  }

  /** Because `&` is replaced first, no later replacement touches an entity
      an earlier one produced: the chain escapes each character once. */
  lemma {:induction false} ChainIsEscapeEach(s: string)
    ensures ReplaceChain(s) == EscapeEach(s)
  {
    if s != [] {
      assert s == [s[0]] + s[1..];
      ChainAppend([s[0]], s[1..]);
      ChainOfOneChar(s[0]);
      ChainIsEscapeEach(s[1..]);
    }
  }

  /** No raw `<`, `>`, `"` or `'`. */
  predicate NoRawMarkup(s: string)
  {
    forall i :: 0 <= i < |s| ==> s[i] != '<' && s[i] != '>' && s[i] != '"' && s[i] != '\''
  }

  /** The text at the start of `t` is one of the five entities. */
  predicate StartsWithEntity(t: string)
  {
    "&amp;" <= t || "&lt;" <= t || "&gt;" <= t || "&quot;" <= t || "&#039;" <= t
  }

  /** Every `&` opens one of the five entities. */
  predicate AmpersandsOpenEntities(s: string)
  {
    forall i :: 0 <= i < |s| && s[i] == '&' ==> StartsWithEntity(s[i..])
  }

  lemma EntityThenSafe(c: char, rest: string)
    requires NoRawMarkup(rest) && AmpersandsOpenEntities(rest)
    ensures NoRawMarkup(Entity(c) + rest) && AmpersandsOpenEntities(Entity(c) + rest)
  {
    var e := Entity(c);
    var out := e + rest;
    forall i | 0 <= i < |out|
      ensures out[i] != '<' && out[i] != '>' && out[i] != '"' && out[i] != '\''
    {
      if i >= |e| { assert out[i] == rest[i - |e|]; }
    }
    forall i | 0 <= i < |out| && out[i] == '&'
      ensures StartsWithEntity(out[i..])
    {
      if i < |e| {
        assert i == 0;
        assert e <= out;
      } else {
        assert out[i..] == rest[i - |e|..];
      }
    }
  }

  lemma {:induction false} EscapeEachSafe(s: string)
    ensures NoRawMarkup(EscapeEach(s))
    ensures AmpersandsOpenEntities(EscapeEach(s))
  {
    if s != [] {
      EscapeEachSafe(s[1..]);
      EntityThenSafe(s[0], EscapeEach(s[1..]));
    }
  }

  lemma {:induction false} EscapeEachLength(s: string)
    ensures |EscapeEach(s)| >= |s|
    ensures (forall i :: 0 <= i < |s| ==> !IsSpecial(s[i])) ==> EscapeEach(s) == s
  {
    if s != [] {
      EscapeEachLength(s[1..]);
      assert s == [s[0]] + s[1..];
    }
  }

  /** Decoding of the five entities, as an HTML reader does; every other
      character stands for itself. */
  function Unescape(t: string): string
    decreases |t|
  {
    if t == [] then []
    else if "&amp;" <= t then ['&'] + Unescape(t[5..])
    else if "&lt;" <= t then ['<'] + Unescape(t[4..])
    else if "&gt;" <= t then ['>'] + Unescape(t[4..])
    else if "&quot;" <= t then ['"'] + Unescape(t[6..])
    else if "&#039;" <= t then ['\''] + Unescape(t[6..])
    else [t[0]] + Unescape(t[1..])
  }

  lemma UnescapeEntity(c: char, t: string)
    ensures Unescape(Entity(c) + t) == [c] + Unescape(t)
  {
    var u := Entity(c) + t;
    assert u[..|Entity(c)|] == Entity(c);
    assert u[|Entity(c)|..] == t;
    if !IsSpecial(c) {
      assert u[0] == c;
    } else {
      assert u[0] == '&';
      assert |Entity(c)| >= 4;
      assert u[1] == Entity(c)[1];
    }
  }

  lemma {:induction false} UnescapeEscapeEach(s: string)
    ensures Unescape(EscapeEach(s)) == s
  {
    if s != [] {
      UnescapeEntity(s[0], EscapeEach(s[1..]));
      UnescapeEscapeEach(s[1..]);
      assert s == [s[0]] + s[1..];
    }
  }

  /** `escapeHtml(unsafe)`: a falsy argument gives `''`; otherwise the
      escaped text, which holds no raw markup characters, whose every `&`
      opens an entity, which is never shorter than the input, equals the
      input when it holds no special character, and decodes back to it. */
  function EscapeHtml(unsafe: Option<string>): (r: string)
    ensures !Truthy(unsafe) ==> r == ""
    ensures NoRawMarkup(r) && AmpersandsOpenEntities(r)
    ensures unsafe.Some? ==> |r| >= |unsafe.value|
    ensures unsafe.Some? ==> Unescape(r) == unsafe.value
    ensures unsafe.Some? && (forall i :: 0 <= i < |unsafe.value| ==> !IsSpecial(unsafe.value[i]))
            ==> r == unsafe.value
  {
    if !Truthy(unsafe) then ""
    else
      var s := unsafe.value;
      ChainIsEscapeEach(s);
      EscapeEachSafe(s);
      EscapeEachLength(s);
      UnescapeEscapeEach(s);
      ReplaceChain(s)
  }
}

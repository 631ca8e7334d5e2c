/** `escapeHTML` (app.js:171-176): three successive `replaceAll` calls,
    `&` first, then `<`, then `>`.  Its partner is `Unescape`, which reads
    the three entities back; the ampersand going first is what makes the
    pair a round trip. */
module Escape {
  import opened Text

  /** `s.replaceAll(c, rep)` for a one-character pattern and a replacement
      with no `$` patterns in it. */
  function ReplaceChar(s: string, c: char, rep: string): string
    decreases |s|
  {
    if s == [] then []
    else (if s[0] == c then rep else [s[0]]) + ReplaceChar(s[1..], c, rep)
  }

  function EscapeHtml(s: string): (r: string)
    ensures forall i :: 0 <= i < |r| ==> r[i] != '<' && r[i] != '>'
    ensures Unescape(r) == s
    ensures (forall i :: 0 <= i < |s| ==> s[i] != '&' && s[i] != '<' && s[i] != '>') ==> r == s
  {
    EscapeIsPerChar(s);
    UnescapeEscapeEach(s);
    EscapeEachNoMarkup(s);
    EscapeEachIdentity(s);
    ReplaceChar(ReplaceChar(ReplaceChar(s, '&', "&amp;"), '<', "&lt;"), '>', "&gt;")
  }

  /** The reference reading: every character escaped on its own. */
  function EscapeChar(c: char): string {
    if c == '&' then "&amp;" else if c == '<' then "&lt;" else if c == '>' then "&gt;" else [c]
  }

  function EscapeEach(s: string): string
    decreases |s|
  {
    if s == [] then [] else EscapeChar(s[0]) + EscapeEach(s[1..])
  }

  /** Reads `&amp;`, `&lt;` and `&gt;` back, left to right; every other character stands for itself. */
  function Unescape(t: string): string
    decreases |t|
  {
    if t == [] then []
    else if StartsWith(t, "&amp;") then "&" + Unescape(t[5..])
    else if StartsWith(t, "&lt;") then "<" + Unescape(t[4..])
    else if StartsWith(t, "&gt;") then ">" + Unescape(t[4..])
    else [t[0]] + Unescape(t[1..])
  }

  lemma {:induction false} ReplaceCharAppend(a: string, b: string, c: char, rep: string)
    ensures ReplaceChar(a + b, c, rep) == ReplaceChar(a, c, rep) + ReplaceChar(b, c, rep)
    decreases |a|
  {
    if a == [] {
      assert a + b == b;
    } else {
      assert (a + b)[1..] == a[1..] + b;
      ReplaceCharAppend(a[1..], b, c, rep);
    }
  }

  lemma ReplaceCharAbsent(s: string, c: char, rep: string)
    requires forall i :: 0 <= i < |s| ==> s[i] != c
    ensures ReplaceChar(s, c, rep) == s
    decreases |s|
  {
    if s != [] {
      ReplaceCharAbsent(s[1..], c, rep);
    }
  }

  lemma {:induction false} EscapeIsPerChar(s: string)
    ensures ReplaceChar(ReplaceChar(ReplaceChar(s, '&', "&amp;"), '<', "&lt;"), '>', "&gt;") == EscapeEach(s)
    decreases |s|
  {
    if s != [] {
      var h, t := [s[0]], s[1..];
      assert s == h + t;
      var a1 := ReplaceChar(h, '&', "&amp;");
      var a2 := ReplaceChar(t, '&', "&amp;");
      ReplaceCharAppend(h, t, '&', "&amp;");
      ReplaceCharAppend(a1, a2, '<', "&lt;");
      var b1 := ReplaceChar(a1, '<', "&lt;");
      var b2 := ReplaceChar(a2, '<', "&lt;");
      ReplaceCharAppend(b1, b2, '>', "&gt;");
      assert ReplaceChar(t, '&', "&amp;") == a2;
      EscapeIsPerChar(t);
      EscapeSingle(s[0]);
    }
  }

  lemma ReplaceCharSingle(x: char, c: char, rep: string)
    ensures ReplaceChar([x], c, rep) == if x == c then rep else [x]
  {
    assert [x][1..] == [];
  }

  lemma EscapeSingle(x: char)
    ensures ReplaceChar(ReplaceChar(ReplaceChar([x], '&', "&amp;"), '<', "&lt;"), '>', "&gt;") == EscapeChar(x)
  {
    ReplaceCharSingle(x, '&', "&amp;");
    if x == '&' {
      ReplaceCharAbsent("&amp;", '<', "&lt;");
      ReplaceCharAbsent("&amp;", '>', "&gt;");
    } else {
      ReplaceCharSingle(x, '<', "&lt;");
      if x == '<' {
        ReplaceCharAbsent("&lt;", '>', "&gt;");
      } else {
        ReplaceCharSingle(x, '>', "&gt;");
      }
    }
  }

  /** Reading back one escaped character. */
  lemma UnescapeStep(c: char, rest: string)
    ensures Unescape(EscapeChar(c) + rest) == [c] + Unescape(rest)
  {
    var t := EscapeChar(c) + rest;
    if c == '&' {
      assert StartsWith(t, "&amp;") && t[5..] == rest;
    } else if c == '<' {
      assert !StartsWith(t, "&amp;") by { if |t| >= 5 { assert t[..5][1] == 'l'; } }
      assert StartsWith(t, "&lt;") && t[4..] == rest;
    } else if c == '>' {
      assert !StartsWith(t, "&amp;") by { if |t| >= 5 { assert t[..5][1] == 'g'; } }
      assert !StartsWith(t, "&lt;") by { assert t[..4][1] == 'g'; }
      assert StartsWith(t, "&gt;") && t[4..] == rest;
    } else {
      assert !StartsWith(t, "&amp;") by { if |t| >= 5 { assert t[..5][0] == c; } }
      assert !StartsWith(t, "&lt;") by { if |t| >= 4 { assert t[..4][0] == c; } }
      assert !StartsWith(t, "&gt;") by { if |t| >= 4 { assert t[..4][0] == c; } }
      assert t[0] == c && t[1..] == rest;
    }
  }

  lemma {:induction false} UnescapeEscapeEach(s: string)
    ensures Unescape(EscapeEach(s)) == s
    decreases |s|
  {
    if s != [] {
      UnescapeEscapeEach(s[1..]);
      UnescapeStep(s[0], EscapeEach(s[1..]));
    }
  }

  lemma {:induction false} EscapeEachNoMarkup(s: string)
    ensures forall i :: 0 <= i < |EscapeEach(s)| ==> EscapeEach(s)[i] != '<' && EscapeEach(s)[i] != '>'
    decreases |s|
  {
    if s != [] {
      EscapeEachNoMarkup(s[1..]);
      var e, rest := EscapeChar(s[0]), EscapeEach(s[1..]);
      var t := e + rest;
      forall i | 0 <= i < |t| ensures t[i] != '<' && t[i] != '>' {
        if i >= |e| {
          assert t[i] == rest[i - |e|];
        }
      }
    }
  }

  lemma EscapeEachIdentity(s: string)
    ensures (forall i :: 0 <= i < |s| ==> s[i] != '&' && s[i] != '<' && s[i] != '>') ==> EscapeEach(s) == s
    decreases |s|
  {
    if s != [] {
      EscapeEachIdentity(s[1..]);
      if forall i :: 0 <= i < |s| ==> s[i] != '&' && s[i] != '<' && s[i] != '>' {
        assert forall i :: 0 <= i < |s[1..]| ==> s[1..][i] == s[i + 1];
      }
    }
  }
}

/** `wrapTextWithClicks` (app.js:178-211) as written.
    Pass 1 swaps every case-insensitive, word-bounded occurrence of each of
    the first 500 phrases for a numbered marker `__PH_k__`; pass 2 wraps
    every match of the global word pattern `[A-Za-z][A-Za-z']*` in a `kw` span; pass 3
    replaces each marker by a phrase span.  Pass 2 also wraps the letters
    `PH` inside every marker, so pass 3 never finds one: the phrase spans
    are never emitted and the markers stay in the visible text.  Characters
    outside the word runs are copied through unescaped.

    `Decode` parses annotated output back into plain characters, word spans
    and phrase spans; `Visible` removes the span markup from what `Decode`
    returns.  They are the partners the round-trip properties are stated
    with. */
module Annotate {
  import opened Common
  import opened Text
  import opened Escape

  // ---------------------------------------------------------------------
  // Pass 2: the word regex /[A-Za-z][A-Za-z']*/g as a left-to-right lexer

  /** A character the `[A-Za-z']*` tail of the word regex accepts. */
  predicate IsRunChar(c: char) {
    IsLetter(c) || c == '\''
  }

  /** The length of the longest prefix of `s` made of run characters. */
  function RunLength(s: string): (n: nat)
    ensures n <= |s|
    ensures forall i :: 0 <= i < n ==> IsRunChar(s[i])
    ensures n < |s| ==> !IsRunChar(s[n])
    decreases |s|
  {
    if s == [] || !IsRunChar(s[0]) then 0 else 1 + RunLength(s[1..])
  }

  /** A regex match (`Run`) or a character the scan copies through (`Sym`). */
  datatype Token = Run(w: string) | Sym(c: char)

  predicate TokenOk(t: Token) {
    match t
    case Run(w) => w != [] && IsLetter(w[0]) && forall k :: 0 <= k < |w| ==> IsRunChar(w[k])
    case Sym(c) => !IsLetter(c)
  }

  /** Each run starts with a letter, holds only run characters and is
      maximal: what follows it is not a run character; every character
      between runs is a non-letter. */
  predicate WellLexed(ts: seq<Token>) {
    && (forall i :: 0 <= i < |ts| ==> TokenOk(ts[i]))
    && (forall i :: 0 <= i < |ts| - 1 && ts[i].Run? ==> ts[i + 1].Sym? && !IsRunChar(ts[i + 1].c))
  }

  function TokenText(t: Token): string {
    match t
    case Run(w) => w
    case Sym(c) => [c]
  }

  function Flatten(ts: seq<Token>): string
    decreases |ts|
  {
    if ts == [] then [] else TokenText(ts[0]) + Flatten(ts[1..])
  }

  /** The global scan of the word regex: at a letter, take the longest run;
      otherwise copy one character and move on. */
  function Lex(s: string): (ts: seq<Token>)
    ensures LexedAs(ts, s)
    decreases |s|
  {
    if s == [] then []
    else if IsLetter(s[0]) then
      var n := RunLength(s);
      var rest := Lex(s[n..]);
      LexRunStep(s, n, rest);
      [Run(s[..n])] + rest
    else
      var rest := Lex(s[1..]);
      LexSymStep(s, rest);
      [Sym(s[0])] + rest
  }

  /** `ts` is a well-formed lexing of `s`: its pieces spell `s`, and it
      starts with a run exactly when `s` starts with a letter. */
  predicate LexedAs(ts: seq<Token>, s: string) {
    && WellLexed(ts)
    && Flatten(ts) == s
    && (s != [] ==> ts != [] && (ts[0].Run? <==> IsLetter(s[0])))
    && (s != [] && !IsLetter(s[0]) ==> ts[0] == Sym(s[0]))
  }

  lemma LexRunStep(s: string, n: nat, rest: seq<Token>)
    requires s != [] && IsLetter(s[0]) && n == RunLength(s)
    requires LexedAs(rest, s[n..])
    ensures LexedAs([Run(s[..n])] + rest, s)
  {
    var w := s[..n];
    assert TokenOk(Run(w)) by {
      assert w[0] == s[0];
    }
    assert rest != [] ==> rest[0] == Sym(s[n]) by {
      if rest != [] {
        assert s[n..][0] == s[n];
      }
    }
    WellLexedCons(Run(w), rest);
    FlattenCons(Run(w), rest);
    TakeDrop(s, n);
  }

  lemma TakeDrop(s: string, n: nat)
    requires n <= |s|
    ensures s[..n] + s[n..] == s
  {
  }

  lemma LexSymStep(s: string, rest: seq<Token>)
    requires s != [] && !IsLetter(s[0])
    requires LexedAs(rest, s[1..])
    ensures LexedAs([Sym(s[0])] + rest, s)
  {
    WellLexedCons(Sym(s[0]), rest);
    FlattenCons(Sym(s[0]), rest);
    assert [s[0]] + s[1..] == s;
  }

  lemma WellLexedCons(t: Token, rest: seq<Token>)
    requires TokenOk(t) && WellLexed(rest)
    requires t.Run? && rest != [] ==> rest[0].Sym? && !IsRunChar(rest[0].c)
    ensures WellLexed([t] + rest)
  {
    var ts := [t] + rest;
    assert forall i :: 1 <= i < |ts| ==> ts[i] == rest[i - 1];
  }

  lemma FlattenCons(t: Token, rest: seq<Token>)
    ensures Flatten([t] + rest) == TokenText(t) + Flatten(rest)
  {
    assert ([t] + rest)[1..] == rest;
  }

  lemma RunLengthOfRun(w: string, z: string)
    requires forall k :: 0 <= k < |w| ==> IsRunChar(w[k])
    requires z == [] || !IsRunChar(z[0])
    ensures RunLength(w + z) == |w|
    decreases |w|
  {
    if w != [] {
      assert (w + z)[1..] == w[1..] + z;
      RunLengthOfRun(w[1..], z);
    }
  }

  /** One step of the lexer at a word run. */
  lemma LexRun(w: string, z: string)
    requires TokenOk(Run(w))
    requires z == [] || !IsRunChar(z[0])
    ensures Lex(w + z) == [Run(w)] + Lex(z)
  {
    RunLengthOfRun(w, z);
    var s := w + z;
    assert s[0] == w[0];
    assert s[..|w|] == w && s[|w|..] == z;
  }

  /** One step of the lexer at a non-letter. */
  lemma LexSym(c: char, z: string)
    requires !IsLetter(c)
    ensures Lex([c] + z) == [Sym(c)] + Lex(z)
  {
    assert ([c] + z)[1..] == z;
  }

  /** Lexing is the only way to cut a text into well-formed tokens: every
      maximal word run becomes exactly one `Run`. */
  lemma {:induction false} LexUnique(ts: seq<Token>, s: string)
    requires WellLexed(ts) && Flatten(ts) == s
    ensures ts == Lex(s)
    decreases |ts|
  {
    if ts != [] {
      var rest := ts[1..];
      var z := Flatten(rest);
      assert WellLexed(rest) by {
        assert forall i :: 0 <= i < |rest| ==> rest[i] == ts[i + 1];
      }
      LexUnique(rest, z);
      assert TokenOk(ts[0]);
      match ts[0]
      case Run(w) =>
        if rest != [] {
          assert rest[0] == ts[1];
          assert z == [rest[0].c] + Flatten(rest[1..]);
        }
        LexRun(w, z);
      case Sym(c) =>
        LexSym(c, z);
    }
  }

  const KwOpen: string := "<span class=\"kw\" data-term=\""
  const PhraseAttr: string := "\" data-phrase=\"1\""
  const SpanClose: string := "</span>"

  /** The replacement of app.js:198. */
  function WordSpan(m: string): string {
    KwOpen + EscapeHtml(m) + "\">" + EscapeHtml(m) + SpanClose
  }

  /** The replacement of app.js:206, given the escaped phrase text. */
  function PhraseSpan(safe: string): string {
    KwOpen + safe + PhraseAttr + ">" + safe + SpanClose
  }

  function RenderToken(t: Token): string {
    match t
    case Run(w) => WordSpan(w)
    case Sym(c) => [c]
  }

  function Render(ts: seq<Token>): string
    decreases |ts|
  {
    if ts == [] then [] else RenderToken(ts[0]) + Render(ts[1..])
  }

  /** Pass 2 (app.js:197-199): every word run becomes a word span and the
      rest is copied; decoding the result gives back the runs and the other
      characters in order, with nothing marked as a phrase. */
  function WrapWords(s: string): (r: string)
    ensures Decode(r) == TokenUnits(Lex(s))
    ensures Visible(Decode(r)) == s
    ensures PhraseTerms(Decode(r)) == []
    ensures NoUnderscoreBeforeLetter(r)
  {
    DecodeRender(Lex(s), []);
    assert Render(Lex(s)) + [] == Render(Lex(s));
    VisibleOfTokens(Lex(s));
    RenderNoUnderscoreBeforeLetter(Lex(s));
    Render(Lex(s))
  }

  // ---------------------------------------------------------------------
  // Reading annotated output back

  /** One unit of annotated output: a plain character, a word span or a
      phrase span, each span with the term it looks up. */
  datatype Unit = Plain(c: char) | WordUnit(term: string) | PhraseUnit(term: string)

  /** The index of the first `c` in `s`, or `|s|`. */
  function IndexOf(s: string, c: char): (i: nat)
    ensures i <= |s|
    ensures i < |s| ==> s[i] == c
    decreases |s|
  {
    if s == [] then 0 else if s[0] == c then 0 else 1 + IndexOf(s[1..], c)
  }

  /** A span at the start of `t`: the opening tag up to the first `>`, the
      shown text up to the next `<`, then `</span>`; the tag must carry the
      shown text as its `data-term`, with `data-phrase="1"` after it for a
      phrase.  Yields the unit and the number of characters it spans. */
  function SpanAt(t: string): (r: Option<(Unit, nat)>)
    ensures r.Some? ==> 0 < r.value.1 <= |t|
  {
    if StartsWith(t, KwOpen) then Shift(TagRest(t[|KwOpen|..]), |KwOpen|) else None
  }

  function Shift(r: Option<(Unit, nat)>, k: nat): Option<(Unit, nat)> {
    match r
    case None => None
    case Some((u, n)) => Some((u, n + k))
  }

  /** The rest of an opening tag: its attribute part runs to the first `>`. */
  function TagRest(a: string): (r: Option<(Unit, nat)>)
    ensures r.Some? ==> r.value.1 <= |a|
  {
    var g := IndexOf(a, '>');
    if g == |a| then None else Shift(SpanBody(a[..g], a[g + 1..]), g + 1)
  }

  /** The shown text runs to the first `<`, which must open `</span>`. */
  function SpanBody(attr: string, b: string): (r: Option<(Unit, nat)>)
    ensures r.Some? ==> r.value.1 <= |b|
  {
    var l := IndexOf(b, '<');
    if StartsWith(b[l..], SpanClose) then Classify(attr, b[..l]) else None
  }

  /** A word span names its shown text as the term; a phrase span adds
      `data-phrase="1"`; anything else is not a span of the annotator. */
  function Classify(attr: string, body: string): Option<(Unit, nat)> {
    var n := |body| + |SpanClose|;
    if attr == body + "\"" then Some((WordUnit(Unescape(body)), n))
    else if attr == body + PhraseAttr then Some((PhraseUnit(Unescape(body)), n))
    else None
  }

  function Decode(t: string): seq<Unit>
    decreases |t|
  {
    if t == [] then []
    else match SpanAt(t)
      case Some((u, n)) => [u] + Decode(t[n..])
      case None => [Plain(t[0])] + Decode(t[1..])
  }

  function UnitText(u: Unit): string {
    match u
    case Plain(c) => [c]
    case WordUnit(t) => t
    case PhraseUnit(t) => t
  }

  /** The text left once the span markup is removed. */
  function Visible(us: seq<Unit>): string
    decreases |us|
  {
    if us == [] then [] else UnitText(us[0]) + Visible(us[1..])
  }

  /** The terms of the phrase spans, in order. */
  function PhraseTerms(us: seq<Unit>): seq<string>
    decreases |us|
  {
    if us == [] then []
    else (if us[0].PhraseUnit? then [us[0].term] else []) + PhraseTerms(us[1..])
  }

  function TokenUnit(t: Token): Unit {
    match t
    case Run(w) => WordUnit(w)
    case Sym(c) => Plain(c)
  }

  function TokenUnits(ts: seq<Token>): seq<Unit>
    decreases |ts|
  {
    if ts == [] then [] else [TokenUnit(ts[0])] + TokenUnits(ts[1..])
  }

  lemma {:induction false} VisibleOfTokens(ts: seq<Token>)
    ensures Visible(TokenUnits(ts)) == Flatten(ts)
    ensures PhraseTerms(TokenUnits(ts)) == []
    decreases |ts|
  {
    if ts != [] {
      VisibleOfTokens(ts[1..]);
      assert TokenUnits(ts)[1..] == TokenUnits(ts[1..]);
    }
  }

  lemma {:induction false} VisibleAppend(a: seq<Unit>, b: seq<Unit>)
    ensures Visible(a + b) == Visible(a) + Visible(b)
    ensures PhraseTerms(a + b) == PhraseTerms(a) + PhraseTerms(b)
    decreases |a|
  {
    if a == [] {
      assert a + b == b;
    } else {
      assert (a + b)[1..] == a[1..] + b;
      VisibleAppend(a[1..], b);
      Assoc(UnitText(a[0]), Visible(a[1..]), Visible(b));
      var h := if a[0].PhraseUnit? then [a[0].term] else [];
      Assoc(h, PhraseTerms(a[1..]), PhraseTerms(b));
    }
  }

  lemma RunHasNoMarkup(w: string)
    requires forall k :: 0 <= k < |w| ==> IsRunChar(w[k])
    ensures EscapeHtml(w) == w
    ensures Unescape(w) == w
    ensures forall k :: 0 <= k < |w| ==> w[k] != '>' && w[k] != '<' && w[k] != '"' && w[k] != '_'
  {
    forall k | 0 <= k < |w| ensures w[k] != '&' && w[k] != '<' && w[k] != '>' && w[k] != '"' && w[k] != '_' {
      RunCharPlain(w[k]);
    }
    var e := EscapeHtml(w);
    assert e == w;
  }

  lemma RunCharPlain(c: char)
    requires IsRunChar(c)
    ensures c != '&' && c != '<' && c != '>' && c != '"' && c != '_'
  {
  }

  /** `IndexOf` finds the first occurrence. */
  lemma {:induction false} IndexOfAt(s: string, c: char, k: nat)
    requires k < |s| && s[k] == c
    requires forall j :: 0 <= j < k ==> s[j] != c
    ensures IndexOf(s, c) == k
    decreases k
  {
    if k > 0 {
      assert s[0] != c;
      assert s[1..][k - 1] == c;
      IndexOfAt(s[1..], c, k - 1);
    }
  }

  lemma SpanBodySplit(attr: string, body: string, z: string)
    requires forall k :: 0 <= k < |body| ==> body[k] != '<'
    ensures SpanBody(attr, body + SpanClose + z) == Classify(attr, body)
  {
    var b := body + SpanClose + z;
    IndexOfAt(b, '<', |body|);
    assert b[..|body|] == body;
    assert b[|body|..] == SpanClose + z;
  }

  lemma TagRestSplit(attr: string, body: string, z: string)
    requires forall k :: 0 <= k < |attr| ==> attr[k] != '>'
    requires forall k :: 0 <= k < |body| ==> body[k] != '<'
    ensures TagRest(attr + ">" + body + SpanClose + z) == Shift(Classify(attr, body), |attr| + 1)
  {
    var a := attr + ">" + (body + SpanClose + z);
    assert attr + ">" + body + SpanClose + z == a;
    IndexOfAt(a, '>', |attr|);
    assert a[..|attr|] == attr;
    assert a[|attr| + 1..] == body + SpanClose + z;
    SpanBodySplit(attr, body, z);
  }

  /** The layout both kinds of span share: opening tag with attribute part
      `attr`, shown text `body`, closing tag. */
  function SpanText(attr: string, body: string): string {
    KwOpen + attr + ">" + body + SpanClose
  }

  lemma WordSpanText(m: string)
    ensures WordSpan(m) == SpanText(EscapeHtml(m) + "\"", EscapeHtml(m))
  {
    var e := EscapeHtml(m);
    Assoc(KwOpen + e, "\"", ">");
    Assoc(KwOpen, e, "\"");
  }

  lemma PhraseSpanText(safe: string)
    ensures PhraseSpan(safe) == SpanText(safe + PhraseAttr, safe)
  {
    Assoc(KwOpen, safe, PhraseAttr);
  }

  lemma SpanTextTail(attr: string, body: string, z: string)
    ensures SpanText(attr, body) + z == KwOpen + (attr + ">" + body + SpanClose + z)
  {
  }

  lemma SpanAtOpen(a: string)
    ensures SpanAt(KwOpen + a) == Shift(TagRest(a), |KwOpen|)
  {
    assert (KwOpen + a)[|KwOpen|..] == a;
  }

  /** The span reader on a text laid out as a span: an opening tag whose
      attribute part has no `>`, a body without `<`, then the closing tag. */
  lemma SpanAtSplit(attr: string, body: string, z: string)
    requires forall k :: 0 <= k < |attr| ==> attr[k] != '>'
    requires forall k :: 0 <= k < |body| ==> body[k] != '<'
    ensures SpanAt(SpanText(attr, body) + z) == Shift(Classify(attr, body), |KwOpen| + |attr| + 1)
  {
    var a := attr + ">" + body + SpanClose + z;
    SpanTextTail(attr, body, z);
    SpanAtOpen(a);
    TagRestSplit(attr, body, z);
    ShiftShift(Classify(attr, body), |attr| + 1, |KwOpen|);
  }

  lemma ShiftShift(r: Option<(Unit, nat)>, j: nat, k: nat)
    ensures Shift(Shift(r, j), k) == Shift(r, j + k)
  {
  }

  lemma ClassifyWord(body: string)
    ensures Classify(body + "\"", body) == Some((WordUnit(Unescape(body)), |body| + |SpanClose|))
  {
  }

  lemma ClassifyPhrase(body: string)
    ensures Classify(body + PhraseAttr, body) == Some((PhraseUnit(Unescape(body)), |body| + |SpanClose|))
  {
    assert |body + PhraseAttr| != |body + "\""|;
  }

  lemma DecodeWordSpan(w: string, z: string)
    requires TokenOk(Run(w))
    ensures SpanAt(WordSpan(w) + z) == Some((WordUnit(w), |WordSpan(w)|))
  {
    var attr := w + "\"";
    var k := |KwOpen| + |attr| + 1;
    calc {
      SpanAt(WordSpan(w) + z);
    == { RunHasNoMarkup(w); WordSpanText(w); }
      SpanAt(SpanText(attr, w) + z);
    == { RunHasNoMarkup(w); SpanAtSplit(attr, w, z); }
      Shift(Classify(attr, w), k);
    == { RunHasNoMarkup(w); ClassifyWord(w); }
      Shift(Some((WordUnit(w), |w| + |SpanClose|)), k);
    == { ShiftSome(WordUnit(w), |w| + |SpanClose|, k); }
      Some((WordUnit(w), |w| + |SpanClose| + k));
    == { RunHasNoMarkup(w); WordSpanText(w); SpanTextLength(attr, w); }
      Some((WordUnit(w), |WordSpan(w)|));
    }
  }

  lemma SpanTextLength(attr: string, body: string)
    ensures |SpanText(attr, body)| == |KwOpen| + |attr| + 1 + |body| + |SpanClose|
  {
  }

  lemma ShiftSome(u: Unit, n: nat, k: nat)
    ensures Shift(Some((u, n)), k) == Some((u, n + k))
  {
  }

  lemma PhraseAttrNoGt(safe: string)
    requires forall k :: 0 <= k < |safe| ==> safe[k] != '>'
    ensures forall k :: 0 <= k < |safe + PhraseAttr| ==> (safe + PhraseAttr)[k] != '>'
  {
    var attr := safe + PhraseAttr;
    forall k | 0 <= k < |attr| ensures attr[k] != '>' {
      if k >= |safe| {
        assert attr[k] == PhraseAttr[k - |safe|];
      }
    }
  }

  lemma DecodePhraseSpan(text: string, z: string)
    ensures SpanAt(PhraseSpan(EscapeHtml(text)) + z) == Some((PhraseUnit(text), |PhraseSpan(EscapeHtml(text))|))
  {
    var safe := EscapeHtml(text);
    var attr := safe + PhraseAttr;
    var k := |KwOpen| + |attr| + 1;
    calc {
      SpanAt(PhraseSpan(safe) + z);
    == { PhraseSpanText(safe); }
      SpanAt(SpanText(attr, safe) + z);
    == { PhraseAttrNoGt(safe); SpanAtSplit(attr, safe, z); }
      Shift(Classify(attr, safe), k);
    == { ClassifyPhrase(safe); }
      Shift(Some((PhraseUnit(text), |safe| + |SpanClose|)), k);
    == { ShiftSome(PhraseUnit(text), |safe| + |SpanClose|, k); }
      Some((PhraseUnit(text), |safe| + |SpanClose| + k));
    == { PhraseSpanText(safe); SpanTextLength(attr, safe); }
      Some((PhraseUnit(text), |PhraseSpan(safe)|));
    }
  }

  /** Reading a span moves past it. */
  lemma DecodeSpan(t: string, u: Unit, n: nat)
    requires t != [] && SpanAt(t) == Some((u, n))
    ensures Decode(t) == [u] + Decode(t[n..])
  {
  }

  /** Where no span starts, one plain character is read. */
  lemma DecodePlain(c: char, y: string)
    requires !StartsWith([c] + y, KwOpen)
    ensures Decode([c] + y) == [Plain(c)] + Decode(y)
  {
    assert ([c] + y)[1..] == y;
  }

  /** Rendered tokens never start with a letter. */
  lemma RenderStart(ts: seq<Token>)
    requires forall i :: 0 <= i < |ts| ==> TokenOk(ts[i])
    ensures Render(ts) == [] || !IsLetter(Render(ts)[0])
  {
    if ts != [] {
      assert TokenOk(ts[0]);
    }
  }

  /** Decoding one rendered token followed by text that does not start with a letter. */
  lemma DecodeToken(t: Token, y: string)
    requires TokenOk(t)
    requires y == [] || !IsLetter(y[0])
    ensures Decode(RenderToken(t) + y) == [TokenUnit(t)] + Decode(y)
  {
    match t
    case Run(w) =>
      DecodeWordSpan(w, y);
      DecodeSpan(WordSpan(w) + y, WordUnit(w), |WordSpan(w)|);
      assert (WordSpan(w) + y)[|WordSpan(w)|..] == y;
    case Sym(c) =>
      var t := [c] + y;
      if |KwOpen| <= |t| {
        assert t[..|KwOpen|][1] == y[0];
        assert KwOpen[1] == 's';
      }
      DecodePlain(c, y);
  }

  lemma RenderCons(ts: seq<Token>, z: string)
    requires ts != []
    ensures Render(ts) + z == RenderToken(ts[0]) + (Render(ts[1..]) + z)
  {
    Assoc(RenderToken(ts[0]), Render(ts[1..]), z);
  }

  lemma TokensOkTail(ts: seq<Token>)
    requires ts != [] && forall i :: 0 <= i < |ts| ==> TokenOk(ts[i])
    ensures TokenOk(ts[0]) && forall i :: 0 <= i < |ts[1..]| ==> TokenOk(ts[1..][i])
  {
    assert forall i :: 0 <= i < |ts[1..]| ==> ts[1..][i] == ts[i + 1];
  }

  /** Decoding rendered tokens gives one unit per token, whatever follows,
      as long as what follows does not start with a letter. */
  lemma {:induction false} DecodeRender(ts: seq<Token>, z: string)
    requires forall i :: 0 <= i < |ts| ==> TokenOk(ts[i])
    requires z == [] || !IsLetter(z[0])
    ensures Decode(Render(ts) + z) == TokenUnits(ts) + Decode(z)
    decreases |ts|
  {
    if ts == [] {
      assert Render(ts) + z == z;
    } else {
      var rest := ts[1..];
      var y := Render(rest) + z;
      TokensOkTail(ts);
      RenderStart(rest);
      RenderCons(ts, z);
      DecodeToken(ts[0], y);
      DecodeRender(rest, z);
      assert TokenUnits(ts) == [TokenUnit(ts[0])] + TokenUnits(rest);
      Assoc([TokenUnit(ts[0])], TokenUnits(rest), Decode(z));
    }
  }

  // ---------------------------------------------------------------------
  // Pass 1: phrases replaced by numbered markers (app.js:182-194)

  /** The regular-expression assertion `\b` at position `i`. */
  predicate Boundary(s: string, i: int)
    requires 0 <= i <= |s|
  {
    (0 < i && IsWordChar(s[i - 1])) != (i < |s| && IsWordChar(s[i]))
  }

  /** `\b<phrase>\b` with the `i` flag matches at `i`: the phrase, its
      metacharacters escaped, is matched literally. */
  predicate MatchAt(s: string, ph: string, i: int)
    requires 0 <= i <= |s|
  {
    i + |ph| <= |s| && Boundary(s, i) && EqIgnoreCase(s[i..i + |ph|], ph) && Boundary(s, i + |ph|)
  }

  /** A character left alone by a phrase pass, or a matched occurrence. */
  datatype Piece = Lit(c: char) | Hit(text: string)

  function PieceText(p: Piece): string {
    match p
    case Lit(c) => [c]
    case Hit(t) => t
  }

  /** The text the pieces were cut from. */
  function Original(ps: seq<Piece>): string
    decreases |ps|
  {
    if ps == [] then [] else PieceText(ps[0]) + Original(ps[1..])
  }

  lemma {:induction false} OriginalAppend(a: seq<Piece>, b: seq<Piece>)
    ensures Original(a + b) == Original(a) + Original(b)
    decreases |a|
  {
    if a == [] {
      assert a + b == b;
    } else {
      assert (a + b)[1..] == a[1..] + b;
      OriginalAppend(a[1..], b);
    }
  }

  lemma OriginalCons(p: Piece, rest: seq<Piece>)
    ensures Original([p] + rest) == PieceText(p) + Original(rest)
  {
    assert ([p] + rest)[1..] == rest;
  }

  lemma OriginalSplit(ps: seq<Piece>, i: nat, j: nat)
    requires i <= j <= |ps|
    ensures Original(ps[i..]) == Original(ps[i..j]) + Original(ps[j..])
  {
    assert ps[i..] == ps[i..j] + ps[j..];
    OriginalAppend(ps[i..j], ps[j..]);
  }

  /** The matches `String.prototype.replace` finds for one phrase from
      position `i` on: the leftmost match, then the next one at or after its
      end, and so on; after an empty match the scan moves one character on. */
  function Scan(s: string, ph: string, i: nat): (ps: seq<Piece>)
    requires i <= |s|
    decreases |s| - i
  {
    if MatchAt(s, ph, i) then
      if |ph| > 0 then [Hit(s[i..i + |ph|])] + Scan(s, ph, i + |ph|)
      else if i < |s| then [Hit([]), Lit(s[i])] + Scan(s, ph, i + 1)
      else [Hit([])]
    else if i < |s| then [Lit(s[i])] + Scan(s, ph, i + 1)
    else []
  }


  /** Every hit among the pieces equals `ph` up to case. */
  predicate HitsAll(ps: seq<Piece>, ph: string) {
    forall k :: 0 <= k < |ps| && ps[k].Hit? ==> EqIgnoreCase(ps[k].text, ph)
  }

  lemma HitsAllCons(p: Piece, rest: seq<Piece>, ph: string)
    requires p.Hit? ==> EqIgnoreCase(p.text, ph)
    requires HitsAll(rest, ph)
    ensures HitsAll([p] + rest, ph)
  {
    var ps := [p] + rest;
    assert forall k :: 1 <= k < |ps| ==> ps[k] == rest[k - 1];
  }

  lemma ScanHitStep(s: string, ph: string, i: nat)
    requires ph != [] && i <= |s| && MatchAt(s, ph, i)
    ensures Scan(s, ph, i) == [Hit(s[i..i + |ph|])] + Scan(s, ph, i + |ph|)
  {
  }

  lemma ScanEmptyStep(s: string, ph: string, i: nat)
    requires ph == [] && i < |s| && MatchAt(s, ph, i)
    ensures Scan(s, ph, i) == [Hit([])] + ([Lit(s[i])] + Scan(s, ph, i + 1))
  {
  }

  lemma ScanLitStep(s: string, ph: string, i: nat)
    requires i < |s| && !MatchAt(s, ph, i)
    ensures Scan(s, ph, i) == [Lit(s[i])] + Scan(s, ph, i + 1)
  {
  }

  /** One piece in front of a scan that keeps its text and its hits. */
  lemma KeepsCons(s: string, ph: string, i: nat, n: nat, p: Piece, rest: seq<Piece>)
    requires i <= n <= |s| && PieceText(p) == s[i..n]
    requires p.Hit? ==> EqIgnoreCase(p.text, ph)
    requires Original(rest) == s[n..] && HitsAll(rest, ph)
    ensures Original([p] + rest) == s[i..] && HitsAll([p] + rest, ph)
  {
    HitsAllCons(p, rest, ph);
    OriginalCons(p, rest);
    assert s[i..] == s[i..n] + s[n..];
  }

  /** The scan from `i` keeps the text `s[i..]` and reports only matching hits. */
  predicate ScanKept(s: string, ph: string, i: nat)
    requires i <= |s|
  {
    Original(Scan(s, ph, i)) == s[i..] && HitsAll(Scan(s, ph, i), ph)
  }

  lemma KeepsStep(s: string, ph: string, i: nat, n: nat, p: Piece)
    requires i <= n <= |s| && PieceText(p) == s[i..n]
    requires p.Hit? ==> EqIgnoreCase(p.text, ph)
    requires Scan(s, ph, i) == [p] + Scan(s, ph, n)
    requires ScanKept(s, ph, n)
    ensures ScanKept(s, ph, i)
  {
    KeepsCons(s, ph, i, n, p, Scan(s, ph, n));
  }

  /** A scan cuts `s[i..]` into pieces without losing or adding text, and
      every hit it reports matches the phrase up to case. */
  lemma ScanKeeps(s: string, ph: string, i: nat)
    requires i <= |s|
    ensures Original(Scan(s, ph, i)) == s[i..]
    ensures HitsAll(Scan(s, ph, i), ph)
  {
    ScanKeptFrom(s, ph, i);
  }

  lemma {:induction false} ScanKeptFrom(s: string, ph: string, i: nat)
    requires i <= |s|
    ensures ScanKept(s, ph, i)
    decreases |s| - i, 1
  {
    if MatchAt(s, ph, i) && ph != [] {
      ScanKeptHit(s, ph, i);
    } else if MatchAt(s, ph, i) {
      ScanKeptEmpty(s, ph, i);
    } else if i < |s| {
      ScanKeptLit(s, ph, i);
    } else {
      assert Scan(s, ph, i) == [];
    }
  }

  lemma {:induction false} ScanKeptHit(s: string, ph: string, i: nat)
    requires i <= |s| && ph != [] && MatchAt(s, ph, i)
    ensures ScanKept(s, ph, i)
    decreases |s| - i, 0
  {
    var n: nat := i + |ph|;
    ScanKeptFrom(s, ph, n);
    ScanHitStep(s, ph, i);
    KeepsStep(s, ph, i, n, Hit(s[i..n]));
  }

  lemma {:induction false} ScanKeptLit(s: string, ph: string, i: nat)
    requires i < |s| && !MatchAt(s, ph, i)
    ensures ScanKept(s, ph, i)
    decreases |s| - i, 0
  {
    var n: nat := i + 1;
    ScanKeptFrom(s, ph, n);
    ScanLitStep(s, ph, i);
    KeepsStep(s, ph, i, n, Lit(s[i]));
  }

  /** The empty phrase matches at every boundary: a hit of `""` there, then
      the scan moves one character on. */
  lemma {:induction false} ScanKeptEmpty(s: string, ph: string, i: nat)
    requires i <= |s| && ph == [] && MatchAt(s, ph, i)
    ensures ScanKept(s, ph, i)
    decreases |s| - i, 0
  {
    if i < |s| {
      var n: nat := i + 1;
      var rest := Scan(s, ph, n);
      ScanKeptFrom(s, ph, n);
      assert Scan(s, ph, i) == [Hit([])] + ([Lit(s[i])] + rest);
      KeepsCons(s, ph, i, n, Lit(s[i]), rest);
      KeepsCons(s, ph, i, i, Hit([]), [Lit(s[i])] + rest);
    } else {
      assert Scan(s, ph, i) == [Hit([])] + [];
      KeepsCons(s, ph, i, i, Hit([]), []);
    }
  }

  /** Where piece `k` starts in the text, for pieces cut from position `i` on. */
  function PieceStart(ps: seq<Piece>, i: nat, k: nat): nat
    requires k <= |ps|
  {
    i + |Original(ps[..k])|
  }

  lemma PieceStartCons(p: Piece, rest: seq<Piece>, i: nat, k: nat)
    requires 1 <= k <= |rest| + 1
    ensures PieceStart([p] + rest, i, k) == PieceStart(rest, i + |PieceText(p)|, k - 1)
  {
    assert ([p] + rest)[..k] == [p] + rest[..k - 1];
    OriginalCons(p, rest[..k - 1]);
  }

  /** Every hit sits where `\b<phrase>\b` matches. */
  predicate HitsAt(s: string, ph: string, ps: seq<Piece>, i: nat) {
    forall k {:trigger PieceStart(ps, i, k)} :: 0 <= k < |ps| && ps[k].Hit? ==>
      PieceStart(ps, i, k) <= |s| && MatchAt(s, ph, PieceStart(ps, i, k))
  }

  /** Position `j` is the start of a hit or lies inside one. */
  predicate Covered(ps: seq<Piece>, i: nat, j: nat) {
    exists k {:trigger PieceStart(ps, i, k)} :: 0 <= k < |ps| && ps[k].Hit? && PieceStart(ps, i, k) <= j &&
      (j == PieceStart(ps, i, k) || j < PieceStart(ps, i, k) + |ps[k].text|)
  }

  /** Every match from `lo` on is covered. */
  predicate NoneMissed(s: string, ph: string, ps: seq<Piece>, i: nat, lo: nat) {
    forall j :: lo <= j <= |s| && MatchAt(s, ph, j) ==> Covered(ps, i, j)
  }

  /** The piece at `i` covers every match between `lo2` and `lo`. */
  predicate Accounts(s: string, ph: string, p: Piece, i: nat, lo2: nat, lo: nat) {
    forall j :: lo2 <= j < lo && j <= |s| && MatchAt(s, ph, j) ==>
      p.Hit? && (j == i || j < i + |p.text|)
  }

  lemma HitAccounts(s: string, ph: string, t: string, i: nat, lo2: nat, lo: nat)
    requires i <= lo2 && (lo <= i + |t| || lo <= i + 1)
    ensures Accounts(s, ph, Hit(t), i, lo2, lo)
  {
  }

  lemma LitAccounts(s: string, ph: string, c: char, i: nat)
    requires i < |s| && !MatchAt(s, ph, i)
    ensures Accounts(s, ph, Lit(c), i, i, i + 1)
  {
  }

  /** One piece in front of pieces that place their hits correctly and miss
      no match from `lo` on; the piece itself accounts for the matches
      between `lo2` and `lo`. */
  lemma ExactCons(s: string, ph: string, i: nat, ps: seq<Piece>, p: Piece, rest: seq<Piece>, lo: nat, lo2: nat)
    requires ps == [p] + rest
    requires i + |PieceText(p)| <= |s|
    requires p.Hit? ==> MatchAt(s, ph, i)
    requires HitsAt(s, ph, rest, i + |PieceText(p)|)
    requires NoneMissed(s, ph, rest, i + |PieceText(p)|, lo)
    requires Accounts(s, ph, p, i, lo2, lo)
    requires i <= lo2
    ensures HitsAt(s, ph, ps, i)
    ensures NoneMissed(s, ph, ps, i, lo2)
  {
    var n := i + |PieceText(p)|;
    assert PieceStart(ps, i, 0) == i by {
      assert ps[..0] == [];
    }
    forall k | 1 <= k < |ps| ensures PieceStart(ps, i, k) == PieceStart(rest, n, k - 1) && ps[k] == rest[k - 1] {
      PieceStartCons(p, rest, i, k);
    }
    forall j | lo2 <= j <= |s| && MatchAt(s, ph, j) ensures Covered(ps, i, j) {
      if j < lo {
        assert ps[0] == p;
      } else {
        var k :| 0 <= k < |rest| && rest[k].Hit? && PieceStart(rest, n, k) <= j &&
          (j == PieceStart(rest, n, k) || j < PieceStart(rest, n, k) + |rest[k].text|);
        assert ps[k + 1] == rest[k];
      }
    }
  }

  /** The scan from `i` places its hits on matches and misses none. */
  predicate ScanExact(s: string, ph: string, i: nat)
    requires i <= |s|
  {
    HitsAt(s, ph, Scan(s, ph, i), i) && NoneMissed(s, ph, Scan(s, ph, i), i, i)
  }

  lemma {:induction false} ScanExactFrom(s: string, ph: string, i: nat)
    requires i <= |s|
    ensures ScanExact(s, ph, i)
    decreases |s| - i, 1
  {
    if MatchAt(s, ph, i) && ph != [] {
      ScanExactHit(s, ph, i);
    } else if MatchAt(s, ph, i) {
      ScanExactEmpty(s, ph, i);
    } else if i < |s| {
      ScanExactLit(s, ph, i);
    } else {
      assert Scan(s, ph, i) == [];
    }
  }

  lemma {:induction false} ScanExactHit(s: string, ph: string, i: nat)
    requires i <= |s| && ph != [] && MatchAt(s, ph, i)
    ensures ScanExact(s, ph, i)
    decreases |s| - i, 0
  {
    var n: nat := i + |ph|;
    assert n <= |s|;
    ScanExactFrom(s, ph, n);
    HitStepExact(s, ph, i, n);
  }

  lemma {:induction false} ScanExactLit(s: string, ph: string, i: nat)
    requires i < |s| && !MatchAt(s, ph, i)
    ensures ScanExact(s, ph, i)
    decreases |s| - i, 0
  {
    ScanExactFrom(s, ph, i + 1);
    LitStepExact(s, ph, i);
  }

  lemma {:induction false} ScanExactEmpty(s: string, ph: string, i: nat)
    requires i <= |s| && ph == [] && MatchAt(s, ph, i)
    ensures ScanExact(s, ph, i)
    decreases |s| - i, 0
  {
    if i < |s| {
      ScanExactFrom(s, ph, i + 1);
      EmptyStepExact(s, ph, i);
    } else {
      assert Scan(s, ph, i) == [Hit([])] + [];
      HitAccounts(s, ph, [], i, i, i + 1);
      ExactCons(s, ph, i, Scan(s, ph, i), Hit([]), [], i + 1, i);
    }
  }

  /** A match of a non-empty phrase at `i` becomes one hit. */
  lemma HitStepExact(s: string, ph: string, i: nat, n: nat)
    requires ph != [] && i <= |s| && MatchAt(s, ph, i) && n == i + |ph| && n <= |s|
    requires ScanExact(s, ph, n)
    ensures ScanExact(s, ph, i)
  {
    hide Scan, MatchAt, HitsAt, NoneMissed, Accounts, PieceText;
    var p := HitPiece(s, ph, i, n);
    ExactCons(s, ph, i, Scan(s, ph, i), p, Scan(s, ph, n), n, i);
  }

  /** The piece a match at `i` contributes, ending at `n`. */
  lemma HitPiece(s: string, ph: string, i: nat, n: nat) returns (p: Piece)
    requires ph != [] && i <= |s| && MatchAt(s, ph, i) && n == i + |ph| && n <= |s|
    ensures p.Hit? && i + |PieceText(p)| == n && Scan(s, ph, i) == [p] + Scan(s, ph, n)
    ensures Accounts(s, ph, p, i, i, n)
  {
    p := Hit(s[i..n]);
    assert |PieceText(p)| == |p.text| == |ph|;
    ScanHitStep(s, ph, i);
    HitAccounts(s, ph, p.text, i, i, n);
  }

  /** No match at `i`: the character is kept. */
  lemma LitStepExact(s: string, ph: string, i: nat)
    requires i < |s| && !MatchAt(s, ph, i)
    requires ScanExact(s, ph, i + 1)
    ensures ScanExact(s, ph, i)
  {
    var n: nat := i + 1;
    ScanLitStep(s, ph, i);
    LitAccounts(s, ph, s[i], i);
    ExactCons(s, ph, i, Scan(s, ph, i), Lit(s[i]), Scan(s, ph, n), n, i);
  }

  /** The empty phrase matches at `i`: an empty hit, then the character. */
  lemma EmptyStepExact(s: string, ph: string, i: nat)
    requires i < |s| && ph == [] && MatchAt(s, ph, i)
    requires ScanExact(s, ph, i + 1)
    ensures ScanExact(s, ph, i)
  {
    var n: nat := i + 1;
    var rest := Scan(s, ph, n);
    ScanEmptyStep(s, ph, i);
    var lit := [Lit(s[i])] + rest;
    ExactCons(s, ph, i, lit, Lit(s[i]), rest, n, n);
    HitAccounts(s, ph, [], i, i, n);
    ExactCons(s, ph, i, Scan(s, ph, i), Hit([]), lit, n, i);
  }

  /** One phrase's global replace finds exactly the regex's matches: every
      hit starts where `\b<phrase>\b` matches case-insensitively, and every
      such match is a hit or lies inside an earlier hit it overlaps. */
  lemma ScanFindsMatches(s: string, ph: string)
    ensures forall k :: 0 <= k < |Scan(s, ph, 0)| && Scan(s, ph, 0)[k].Hit? ==>
      PieceStart(Scan(s, ph, 0), 0, k) <= |s| && MatchAt(s, ph, PieceStart(Scan(s, ph, 0), 0, k))
    ensures forall j :: 0 <= j <= |s| && MatchAt(s, ph, j) ==> Covered(Scan(s, ph, 0), 0, j)
  {
    ScanExactFrom(s, ph, 0);
  }

  /** The marker id of app.js:189. */
  function MarkerId(k: nat): (r: string)
    ensures |r| == |Decimal(k)| + 7
  {
    "__PH_" + Decimal(k) + "__"
  }

  datatype Marker = Marker(id: string, text: string)

  /** The text after the replace: each hit becomes the next marker, numbered from `k`. */
  function RenderPieces(ps: seq<Piece>, k: nat): string
    decreases |ps|
  {
    if ps == [] then []
    else match ps[0]
      case Lit(c) => [c] + RenderPieces(ps[1..], k)
      case Hit(_) => MarkerId(k) + RenderPieces(ps[1..], k + 1)
  }

  /** The matched texts, in order. */
  function Hits(ps: seq<Piece>): (r: seq<string>)
    decreases |ps|
  {
    if ps == [] then []
    else (if ps[0].Hit? then [ps[0].text] else []) + Hits(ps[1..])
  }

  /** A hit is listed exactly when it is among the pieces. */
  lemma {:induction false} HitsHas(ps: seq<Piece>, t: string)
    ensures t in Hits(ps) <==> Hit(t) in ps
    decreases |ps|
  {
    if ps != [] {
      HitsHas(ps[1..], t);
      assert ps == [ps[0]] + ps[1..];
    }
  }

  /** The entries the replace callback pushes onto `markers`. */
  function Numbered(texts: seq<string>, k: nat): (r: seq<Marker>)
    ensures |r| == |texts|
    ensures forall j :: 0 <= j < |r| ==> r[j] == Marker(MarkerId(k + j), texts[j])
  {
    seq(|texts|, j requires 0 <= j < |texts| => Marker(MarkerId(k + j), texts[j]))
  }

  /** The loop of app.js:186-193 over `phrases`, threading the text and the
      marker list.  Markers are appended, and numbered by their position in the list. */
  function PhrasePass(s: string, phrases: seq<string>, markers: seq<Marker>): (r: (string, seq<Marker>))
    ensures |r.1| >= |markers| && r.1[..|markers|] == markers
    decreases |phrases|
  {
    if phrases == [] then (s, markers)
    else
      var ps := Scan(s, phrases[0], 0);
      var next := markers + Numbered(Hits(ps), |markers|);
      var r := PhrasePass(RenderPieces(ps, |markers|), phrases[1..], next);
      assert r.1[..|markers|] == r.1[..|next|][..|markers|];
      r
  }

  /** Each marker's id is `__PH_k__` for its position `k` in the list. */
  predicate NumberedFromZero(markers: seq<Marker>) {
    NumberedFrom(markers, 0)
  }

  /** Each marker's id is `__PH_k__` for `k` its position plus `base`. */
  predicate NumberedFrom(markers: seq<Marker>, base: nat) {
    forall k :: 0 <= k < |markers| ==> markers[k].id == MarkerId(base + k)
  }

  lemma NumberedIdsNonEmpty(markers: seq<Marker>, base: nat)
    requires NumberedFrom(markers, base)
    ensures forall k :: 0 <= k < |markers| ==> markers[k].id != []
  {
    forall k | 0 <= k < |markers| ensures markers[k].id != [] {
      assert markers[k].id == MarkerId(base + k);
    }
  }

  lemma NumberedTail(markers: seq<Marker>, base: nat)
    requires markers != [] && NumberedFrom(markers, base)
    ensures markers[0].id == MarkerId(base) && NumberedFrom(markers[1..], base + 1)
  {
    forall k | 0 <= k < |markers[1..]| ensures markers[1..][k].id == MarkerId(base + 1 + k) {
      assert markers[1..][k] == markers[k + 1];
    }
  }

  lemma NumberedExtends(markers: seq<Marker>, texts: seq<string>)
    requires NumberedFromZero(markers)
    ensures NumberedFromZero(markers + Numbered(texts, |markers|))
  {
    var next := markers + Numbered(texts, |markers|);
    forall k | |markers| <= k < |next| ensures next[k].id == MarkerId(k) {
      assert next[k] == Numbered(texts, |markers|)[k - |markers|];
    }
  }

  /** The phrase pass keeps the marker list numbered by position. */
  lemma {:induction false} PhrasePassIds(s: string, phrases: seq<string>, markers: seq<Marker>)
    requires NumberedFromZero(markers)
    ensures NumberedFromZero(PhrasePass(s, phrases, markers).1)
    decreases |phrases|
  {
    if phrases != [] {
      var ps := Scan(s, phrases[0], 0);
      NumberedExtends(markers, Hits(ps));
      PhrasePassIds(RenderPieces(ps, |markers|), phrases[1..], markers + Numbered(Hits(ps), |markers|));
    }
  }

  /** Every marker a phrase pass adds records a text the `i` flag equates
      with one of the phrases tried. */
  lemma {:induction false} PhrasePassMatches(s: string, phrases: seq<string>, markers: seq<Marker>)
    ensures forall m :: m in PhrasePass(s, phrases, markers).1[|markers|..] ==>
      exists ph :: ph in phrases && EqIgnoreCase(m.text, ph)
    decreases |phrases|
  {
    if phrases != [] {
      var ps := Scan(s, phrases[0], 0);
      var found := Hits(ps);
      var next := markers + Numbered(found, |markers|);
      var r := PhrasePass(s, phrases, markers);
      PhrasePassMatches(RenderPieces(ps, |markers|), phrases[1..], next);
      assert r == PhrasePass(RenderPieces(ps, |markers|), phrases[1..], next);
      forall m | m in r.1[|markers|..] ensures exists ph :: ph in phrases && EqIgnoreCase(m.text, ph) {
        var k :| |markers| <= k < |r.1| && r.1[k] == m;
        if k < |next| {
          assert r.1[k] == r.1[..|next|][k] == next[k];
          assert m.text in found;
          HitsHas(ps, m.text);
          ScanKeeps(s, phrases[0], 0);
          assert phrases[0] in phrases;
        } else {
          assert m in r.1[|next|..];
          var ph :| ph in phrases[1..] && EqIgnoreCase(m.text, ph);
        }
      }
    }
  }

  /** Pass 1 as a whole: at most the first 500 phrases, none when the index is empty. */
  function Pass1(raw: string, phraseIndex: seq<string>): (r: (string, seq<Marker>))
    ensures NumberedFromZero(r.1)
    ensures forall m :: m in r.1 ==> exists ph :: ph in Take(phraseIndex, 500) && EqIgnoreCase(m.text, ph)
    ensures NoUnderscore(raw) && PhrasesOk(Take(phraseIndex, 500)) ==> Unmark(r.0, r.1) == raw
  {
    if |phraseIndex| > 0 then
      var phrases := Take(phraseIndex, 500);
      PhrasePassIds(raw, phrases, []);
      PhrasePassMatches(raw, phrases, []);
      PassReadsBack(raw, phrases);
      var r := PhrasePass(raw, phrases, []);
      assert r.1[0..] == r.1;
      r
    else
      PassReadsBack(raw, []);
      (raw, [])
  }

  // ---------------------------------------------------------------------
  // Reading pass-1 text back

  /** Pass-1 text seen unit by unit: a character kept from the input, or
      the marker numbered `k`. */
  datatype Atom = Ch(c: char) | Mk(k: nat)

  function AtomText(a: Atom): string {
    match a
    case Ch(c) => [c]
    case Mk(k) => MarkerId(k)
  }

  /** The text the atoms spell. */
  function Show(atoms: seq<Atom>): (r: string)
    ensures |r| >= |atoms|
    decreases |atoms|
  {
    if atoms == [] then [] else AtomText(atoms[0]) + Show(atoms[1..])
  }

  /** The text with each marker `k` read as the text `markers[k]` records. */
  function Expand(atoms: seq<Atom>, markers: seq<Marker>): string
    decreases |atoms|
  {
    if atoms == [] then []
    else
      var head := match atoms[0]
        case Ch(c) => [c]
        case Mk(k) => if k < |markers| then markers[k].text else MarkerId(k);
      head + Expand(atoms[1..], markers)
  }

  /** No kept character is `_`, and every marker is numbered below `n`. */
  predicate Clean(atoms: seq<Atom>, n: nat) {
    forall j :: 0 <= j < |atoms| ==>
      (atoms[j].Ch? ==> atoms[j].c != '_') && (atoms[j].Mk? ==> atoms[j].k < n)
  }

  /** Plain text, one kept character per atom. */
  function Chars(t: string): (r: seq<Atom>)
    ensures |r| == |t|
    decreases |t|
  {
    if t == [] then [] else [Ch(t[0])] + Chars(t[1..])
  }

  /** The first marker, from position `j` of the list on, whose id starts
      `t`; `|markers|` when there is none. */
  function FirstIdAt(t: string, markers: seq<Marker>, j: nat): (r: nat)
    requires j <= |markers|
    ensures j <= r <= |markers|
    ensures r < |markers| ==> markers[r].id != [] && markers[r].id <= t
    ensures forall i :: j <= i < r ==> !(markers[i].id != [] && markers[i].id <= t)
    decreases |markers| - j
  {
    if j == |markers| then j
    else if markers[j].id != [] && markers[j].id <= t then j
    else FirstIdAt(t, markers, j + 1)
  }

  /** Pass-1 text read back: wherever a marker id starts, the text the
      marker records stands in its place (the first such marker of the
      list when several ids start there); every other character is kept. */
  function Unmark(t: string, markers: seq<Marker>): string
    decreases |t|
  {
    if t == [] then []
    else
      var j := FirstIdAt(t, markers, 0);
      if j < |markers| then markers[j].text + Unmark(t[|markers[j].id|..], markers)
      else [t[0]] + Unmark(t[1..], markers)
  }

  /** Phrases a pass-1 read-back is proved for: non-empty and free of `_`,
      as every multi-word index entry without `_` is. */
  predicate PhrasesOk(phrases: seq<string>) {
    forall ph :: ph in phrases ==> ph != [] && NoUnderscore(ph)
  }

  /** The marker ids of app.js:189 are prefix-free: `__PH_j__` never starts
      the text at `__PH_m__` for `j != m`, whatever follows it. */
  lemma IdNotPrefix(j: nat, m: nat, x: string)
    requires j != m
    ensures !(MarkerId(j) <= MarkerId(m) + x)
  {
    var a, b := MarkerId(j), MarkerId(m) + x;
    var dj, dm := Decimal(j), Decimal(m);
    assert a == "__PH_" + dj + "__";
    assert b == "__PH_" + dm + "__" + x;
    if |dj| < |dm| {
      assert a[5 + |dj|] == '_' != dm[|dj|] == b[5 + |dj|];
    } else if |dj| > |dm| {
      if |a| <= |b| {
        assert a[5 + |dm|] == dj[|dm|] != '_' == b[5 + |dm|];
      }
    } else if a <= b {
      assert dj == a[5..5 + |dj|] == b[5..5 + |dm|] == dm;
      DecimalInjective(j, m);
    }
  }

  lemma ShowCons(a: Atom, rest: seq<Atom>)
    ensures Show([a] + rest) == AtomText(a) + Show(rest)
  {
    assert ([a] + rest)[1..] == rest;
  }

  lemma ExpandCons(a: Atom, rest: seq<Atom>, markers: seq<Marker>)
    ensures a.Ch? ==> Expand([a] + rest, markers) == [a.c] + Expand(rest, markers)
    ensures a.Mk? && a.k < |markers| ==> Expand([a] + rest, markers) == markers[a.k].text + Expand(rest, markers)
  {
    assert ([a] + rest)[1..] == rest;
  }

  lemma CleanCons(a: Atom, rest: seq<Atom>, n: nat)
    requires a.Ch? ==> a.c != '_'
    requires a.Mk? ==> a.k < n
    requires Clean(rest, n)
    ensures Clean([a] + rest, n)
  {
    var atoms := [a] + rest;
    assert forall j :: 1 <= j < |atoms| ==> atoms[j] == rest[j - 1];
  }

  lemma CleanDrop(atoms: seq<Atom>, n: nat, d: nat, n': nat)
    requires d <= |atoms| && Clean(atoms, n) && n <= n'
    ensures Clean(atoms[d..], n')
  {
    forall j | 0 <= j < |atoms[d..]|
      ensures (atoms[d..][j].Ch? ==> atoms[d..][j].c != '_') && (atoms[d..][j].Mk? ==> atoms[d..][j].k < n')
    {
      assert atoms[d..][j] == atoms[d + j];
    }
  }

  /** A longer marker list that starts with `markers` reads the atoms the same. */
  lemma {:induction false} ExpandExtend(atoms: seq<Atom>, markers: seq<Marker>, more: seq<Marker>)
    requires Clean(atoms, |markers|)
    requires |markers| <= |more| && more[..|markers|] == markers
    ensures Expand(atoms, more) == Expand(atoms, markers)
    decreases |atoms|
  {
    if atoms != [] {
      CleanDrop(atoms, |markers|, 1, |markers|);
      ExpandExtend(atoms[1..], markers, more);
      if atoms[0].Mk? {
        assert more[atoms[0].k] == more[..|markers|][atoms[0].k];
      }
    }
  }

  /** Plain text spells itself and reads back as itself. */
  lemma {:induction false} CharsShow(t: string, markers: seq<Marker>)
    ensures Show(Chars(t)) == t && Expand(Chars(t), markers) == t
    ensures NoUnderscore(t) ==> Clean(Chars(t), 0)
    decreases |t|
  {
    if t != [] {
      CharsShow(t[1..], markers);
      ShowCons(Ch(t[0]), Chars(t[1..]));
      ExpandCons(Ch(t[0]), Chars(t[1..]), markers);
      assert t == [t[0]] + t[1..];
      if NoUnderscore(t) {
        assert NoUnderscore(t[1..]) by {
          forall i | 0 <= i < |t[1..]| ensures t[1..][i] != '_' { assert t[1..][i] == t[i + 1]; }
        }
        CleanCons(Ch(t[0]), Chars(t[1..]), 0);
      }
    }
  }

  /** Text built of kept characters and numbered markers reads back, marker
      by marker, as the texts the markers record. */
  lemma {:induction false} UnmarkShow(atoms: seq<Atom>, markers: seq<Marker>)
    requires Clean(atoms, |markers|) && NumberedFromZero(markers)
    ensures Unmark(Show(atoms), markers) == Expand(atoms, markers)
    decreases |atoms|
  {
    if atoms != [] {
      var rest := atoms[1..];
      assert (atoms[0].Ch? ==> atoms[0].c != '_') && (atoms[0].Mk? ==> atoms[0].k < |markers|);
      CleanDrop(atoms, |markers|, 1, |markers|);
      hide Unmark, Clean, NumberedFromZero;
      UnmarkShow(rest, markers);
      assert atoms == [atoms[0]] + rest;
      ShowCons(atoms[0], rest);
      ExpandCons(atoms[0], rest, markers);
      if atoms[0].Ch? {
        UnmarkKeeps(atoms[0].c, Show(rest), markers);
      } else {
        UnmarkMarker(atoms[0].k, Show(rest), markers);
      }
    }
  }

  /** A character other than `_` starts no marker id, so it is kept. */
  lemma UnmarkKeeps(c: char, t: string, markers: seq<Marker>)
    requires c != '_' && NumberedFromZero(markers)
    ensures Unmark([c] + t, markers) == [c] + Unmark(t, markers)
  {
    var u := [c] + t;
    forall i | 0 <= i < |markers| ensures !(markers[i].id != [] && markers[i].id <= u) {
      assert markers[i].id == MarkerId(i);
      assert MarkerId(i)[0] == '_' != u[0];
    }
    assert FirstIdAt(u, markers, 0) == |markers|;
    assert u[1..] == t;
  }

  /** A marker of the list is read back as the text it records. */
  lemma UnmarkMarker(k: nat, t: string, markers: seq<Marker>)
    requires k < |markers| && NumberedFromZero(markers)
    ensures Unmark(MarkerId(k) + t, markers) == markers[k].text + Unmark(t, markers)
  {
    var u := MarkerId(k) + t;
    forall i | 0 <= i < k ensures !(markers[i].id <= u) {
      IdNotPrefix(i, k, t);
    }
    assert markers[k].id == MarkerId(k) <= u;
    assert FirstIdAt(u, markers, 0) == k;
    assert u[|MarkerId(k)|..] == t;
  }

  /** Where no match starts, the scan copies the characters and records nothing. */
  lemma {:induction false} ScanCopies(s: string, ph: string, p: nat, e: nat, k: nat)
    requires p <= e <= |s|
    requires forall q :: p <= q < e ==> !MatchAt(s, ph, q)
    ensures RenderPieces(Scan(s, ph, p), k) == s[p..e] + RenderPieces(Scan(s, ph, e), k)
    ensures Hits(Scan(s, ph, p)) == Hits(Scan(s, ph, e))
    decreases e - p
  {
    if p < e {
      ScanLitRender(s, ph, p, k);
      ScanCopies(s, ph, p + 1, e, k);
      SliceCons(s, p, e, RenderPieces(Scan(s, ph, e), k));
    }
  }

  lemma SliceCons(s: string, p: nat, e: nat, tail: string)
    requires p < e <= |s|
    ensures [s[p]] + (s[p + 1..e] + tail) == s[p..e] + tail
  {
    assert s[p..e] == [s[p]] + s[p + 1..e];
  }

  lemma ScanLitRender(s: string, ph: string, p: nat, k: nat)
    requires p < |s| && !MatchAt(s, ph, p)
    ensures RenderPieces(Scan(s, ph, p), k) == [s[p]] + RenderPieces(Scan(s, ph, p + 1), k)
    ensures Hits(Scan(s, ph, p)) == Hits(Scan(s, ph, p + 1))
  {
    ScanLitStep(s, ph, p);
    assert Scan(s, ph, p)[1..] == Scan(s, ph, p + 1);
  }

  lemma MarkerWordChars(m: nat)
    ensures forall j :: 0 <= j < |MarkerId(m)| ==> IsWordChar(MarkerId(m)[j])
  {
    var d := Decimal(m);
    assert MarkerId(m) == "__PH_" + d + "__";
    forall j | 0 <= j < |MarkerId(m)| ensures IsWordChar(MarkerId(m)[j]) {
      if 5 <= j < 5 + |d| {
        assert MarkerId(m)[j] == d[j - 5];
      }
    }
  }

  /** A phrase free of `_` only matches text free of `_`. */
  lemma {:induction false} MatchNoUnderscore(a: string, ph: string)
    requires EqIgnoreCase(a, ph) && NoUnderscore(ph)
    ensures NoUnderscore(a)
    decreases |a|
  {
    if a != [] {
      assert LowerChar(a[0]) == LowerChar(ph[0]);
      assert NoUnderscore(ph[1..]) by {
        forall i | 0 <= i < |ph[1..]| ensures ph[1..][i] != '_' {
          assert ph[1..][i] == ph[i + 1];
        }
      }
      MatchNoUnderscore(a[1..], ph[1..]);
      forall i | 0 <= i < |a| ensures a[i] != '_' {
        if i > 0 {
          assert a[i] == a[1..][i - 1];
        }
      }
    }
  }

  /** `\b` holds nowhere strictly inside a marker, and a non-empty phrase
      free of `_` does not match at the marker's leading `_`: no match
      starts within a marker. */
  lemma NoMatchInMarker(s: string, ph: string, i: nat, m: nat)
    requires i + |MarkerId(m)| <= |s| && s[i..i + |MarkerId(m)|] == MarkerId(m)
    requires ph != [] && NoUnderscore(ph)
    ensures forall q :: i <= q < i + |MarkerId(m)| ==> !MatchAt(s, ph, q)
  {
    var id := MarkerId(m);
    MarkerWordChars(m);
    forall q | i <= q < i + |id| ensures !MatchAt(s, ph, q) {
      if q == i {
        if i + |ph| <= |s| {
          var w := s[i..i + |ph|];
          assert w[0] == s[i] == id[0] == '_';
          assert LowerChar(w[0]) == '_' != LowerChar(ph[0]);
        }
      } else {
        assert s[q - 1] == id[q - 1 - i] && s[q] == id[q - i];
      }
    }
  }

  /** The atoms spell `s` from position `i` to its end, one atom's text
      after another. */
  predicate SpellsAt(s: string, i: nat, atoms: seq<Atom>)
    decreases |atoms|
  {
    if atoms == [] then i == |s|
    else
      i + |AtomText(atoms[0])| <= |s| && s[i..i + |AtomText(atoms[0])|] == AtomText(atoms[0])
        && SpellsAt(s, i + |AtomText(atoms[0])|, atoms[1..])
  }

  /** The atoms spell their own text, whatever precedes it. */
  lemma {:induction false} ShowSpells(u: string, atoms: seq<Atom>)
    ensures SpellsAt(u + Show(atoms), |u|, atoms)
    decreases |atoms|
  {
    if atoms != [] {
      ShowSpells(u + AtomText(atoms[0]), atoms[1..]);
      ShowSpellsStep(u, atoms);
    }
  }

  lemma ShowSpellsStep(u: string, atoms: seq<Atom>)
    requires atoms != []
    requires SpellsAt((u + AtomText(atoms[0])) + Show(atoms[1..]), |u + AtomText(atoms[0])|, atoms[1..])
    ensures SpellsAt(u + Show(atoms), |u|, atoms)
  {
    hide *;
    var h, rest := AtomText(atoms[0]), atoms[1..];
    HeadTail(atoms);
    ShowCons(atoms[0], rest);
    CatSlice(u, h, Show(rest));
    SpellsCons(u + Show(atoms), |u|, atoms);
  }

  lemma CatSlice(u: string, h: string, w: string)
    ensures u + (h + w) == (u + h) + w && |u + h| == |u| + |h|
    ensures (u + (h + w))[|u|..|u| + |h|] == h
  {
  }

  lemma SpellsCons(t: string, i: nat, atoms: seq<Atom>)
    requires atoms != [] && i + |AtomText(atoms[0])| <= |t|
    requires t[i..i + |AtomText(atoms[0])|] == AtomText(atoms[0])
    requires SpellsAt(t, i + |AtomText(atoms[0])|, atoms[1..])
    ensures SpellsAt(t, i, atoms)
  {
  }

  /** Characters free of `_` at the front of the atoms' text are kept
      characters, one atom each. */
  lemma {:induction false} KeptPrefix(atoms: seq<Atom>, n: nat, markers: seq<Marker>)
    requires n <= |Show(atoms)| && NoUnderscore(Show(atoms)[..n])
    ensures n <= |atoms| && Show(atoms[n..]) == Show(atoms)[n..]
    ensures Expand(atoms, markers) == Show(atoms)[..n] + Expand(atoms[n..], markers)
    decreases n
  {
    if n > 0 {
      KeptHead(atoms, n);
      KeptPrefix(atoms[1..], n - 1, markers);
      KeptTail(atoms, n, markers);
    }
  }

  /** The first of the characters is a kept character. */
  lemma KeptHead(atoms: seq<Atom>, n: nat)
    requires 0 < n <= |Show(atoms)| && NoUnderscore(Show(atoms)[..n])
    ensures atoms != [] && atoms[0].Ch? && Show(atoms[1..]) == Show(atoms)[1..]
    ensures n - 1 <= |Show(atoms[1..])| && NoUnderscore(Show(atoms[1..])[..n - 1])
  {
    var t, rest := Show(atoms), atoms[1..];
    assert atoms == [atoms[0]] + rest;
    ShowCons(atoms[0], rest);
    NoUnderscoreFront(t, n);
    assert t[0] == AtomText(atoms[0])[0];
  }

  lemma KeptTail(atoms: seq<Atom>, n: nat, markers: seq<Marker>)
    requires 0 < n && atoms != [] && atoms[0].Ch? && n - 1 <= |atoms[1..]|
    requires Show(atoms[1..]) == Show(atoms)[1..] && n - 1 <= |Show(atoms[1..])|
    requires Show(atoms[1..][n - 1..]) == Show(atoms[1..])[n - 1..]
    requires Expand(atoms[1..], markers) == Show(atoms[1..])[..n - 1] + Expand(atoms[1..][n - 1..], markers)
    ensures n <= |atoms| && Show(atoms[n..]) == Show(atoms)[n..]
    ensures Expand(atoms, markers) == Show(atoms)[..n] + Expand(atoms[n..], markers)
  {
    var t, rest := Show(atoms), atoms[1..];
    assert atoms == [atoms[0]] + rest;
    assert rest[n - 1..] == atoms[n..];
    ShowCons(atoms[0], rest);
    ExpandCons(atoms[0], rest, markers);
    KeptJoin(atoms[0].c, t, n, Expand(rest, markers), Expand(atoms[n..], markers));
  }

  lemma NoUnderscoreFront(t: string, n: nat)
    requires 0 < n <= |t| && NoUnderscore(t[..n])
    ensures t[0] != '_' && NoUnderscore(t[1..][..n - 1])
  {
    assert t[0] == t[..n][0];
    var u := t[1..][..n - 1];
    forall i | 0 <= i < |u| ensures u[i] != '_' {
      assert u[i] == t[..n][i + 1];
    }
  }

  lemma KeptJoin(c: char, t: string, n: nat, x: string, e: string)
    requires 0 < n <= |t| && t[0] == c && x == t[1..][..n - 1] + e
    ensures [c] + x == t[..n] + e
  {
    assert t[..n] == [c] + t[1..][..n - 1];
  }

  /** Atoms that spell `s` from `i` on are its suffix from `i`. */
  lemma {:induction false} SpellsShow(s: string, i: nat, atoms: seq<Atom>)
    requires SpellsAt(s, i, atoms)
    ensures i <= |s| && s[i..] == Show(atoms)
    decreases |atoms|
  {
    if atoms != [] {
      var h := AtomText(atoms[0]);
      SpellsShow(s, i + |h|, atoms[1..]);
      assert atoms == [atoms[0]] + atoms[1..];
      ShowCons(atoms[0], atoms[1..]);
      SliceJoin(s, i, |h|);
    }
  }

  lemma SliceJoin(s: string, i: nat, n: nat)
    requires i + n <= |s|
    ensures s[i..] == s[i..i + n] + s[i + n..]
  {
  }

  /** A suffix spelled by atoms is spelled from its position. */
  lemma SuffixSpells(s: string, j: nat, atoms: seq<Atom>)
    requires j <= |s| && s[j..] == Show(atoms)
    ensures SpellsAt(s, j, atoms)
  {
    ShowSpells(s[..j], atoms);
    assert s[..j] + Show(atoms) == s;
  }

  lemma HitSpells(s: string, i: nat, atoms: seq<Atom>, m: nat)
    requires 0 < m && i + m <= |s| && SpellsAt(s, i, atoms) && NoUnderscore(s[i..i + m])
    ensures m <= |atoms| && atoms[0].Ch? && SpellsAt(s, i + m, atoms[m..])
  {
    SpellsShow(s, i, atoms);
    SliceSlice(s, i, m);
    HitShown(s[i..], atoms, m, []);
    SuffixAfter(s, i, m, atoms);
  }

  lemma SuffixAfter(s: string, i: nat, m: nat, atoms: seq<Atom>)
    requires i + m <= |s| && m <= |atoms| && Show(atoms[m..]) == s[i..][m..]
    ensures SpellsAt(s, i + m, atoms[m..])
  {
    SliceSlice(s, i, m);
    SuffixSpells(s, i + m, atoms[m..]);
  }

  lemma HitExpands(s: string, i: nat, atoms: seq<Atom>, m: nat, markers: seq<Marker>)
    requires 0 < m && i + m <= |s| && SpellsAt(s, i, atoms) && NoUnderscore(s[i..i + m])
    ensures m <= |atoms| && atoms[0].Ch?
    ensures Expand(atoms, markers) == s[i..i + m] + Expand(atoms[m..], markers)
  {
    SpellsShow(s, i, atoms);
    SliceSlice(s, i, m);
    HitShown(s[i..], atoms, m, markers);
  }

  lemma SliceSlice(s: string, i: nat, m: nat)
    requires i + m <= |s|
    ensures s[i..][..m] == s[i..i + m] && s[i..][m..] == s[i + m..]
  {
  }

  lemma HitShown(t: string, atoms: seq<Atom>, m: nat, markers: seq<Marker>)
    requires 0 < m <= |t| && t == Show(atoms) && NoUnderscore(t[..m])
    ensures m <= |atoms| && atoms[0].Ch? && Show(atoms[m..]) == t[m..]
    ensures Expand(atoms, markers) == t[..m] + Expand(atoms[m..], markers)
  {
    KeptHead(atoms, m);
    KeptPrefix(atoms, m, markers);
  }

  /** `markers` records the texts `found`, in order, from position `k` on. */
  predicate Recorded(found: seq<string>, markers: seq<Marker>, k: nat) {
    k + |found| <= |markers| && forall j :: 0 <= j < |found| ==> markers[k + j].text == found[j]
  }

  lemma RecordedTail(t: string, rest: seq<string>, found: seq<string>, markers: seq<Marker>, k: nat)
    requires found == [t] + rest && Recorded(found, markers, k)
    ensures markers[k].text == t && Recorded(rest, markers, k + 1)
  {
    assert markers[k + 0].text == found[0];
    forall j | 0 <= j < |rest| ensures markers[k + 1 + j].text == rest[j] {
      assert markers[k + (1 + j)].text == found[1 + j];
    }
  }

  /** `out` is the pass-1 text of the scan from `i`, markers numbered from
      `k`: clean atoms that spell that text and read back, under
      `markers`, as the text the scan started from. */
  predicate LiftedAs(s: string, ph: string, i: nat, atoms: seq<Atom>, k: nat, markers: seq<Marker>, out: seq<Atom>)
    requires i <= |s|
  {
    Clean(out, k + |Hits(Scan(s, ph, i))|)
      && Show(out) == RenderPieces(Scan(s, ph, i), k)
      && Expand(out, markers) == Expand(atoms, markers)
  }

  /** The conditions under which a scan from `i` over clean atoms lifts. */
  predicate ScanReady(s: string, ph: string, i: nat, atoms: seq<Atom>, k: nat, markers: seq<Marker>) {
    i <= |s| && AtomsReady(s, ph, i, atoms, k) && Recorded(Hits(Scan(s, ph, i)), markers, k)
  }

  /** The part of `ScanReady` that does not look at the scan. */
  predicate AtomsReady(s: string, ph: string, i: nat, atoms: seq<Atom>, k: nat) {
    i <= |s| && SpellsAt(s, i, atoms) && Clean(atoms, k) && ph != [] && NoUnderscore(ph)
  }

  /** One phrase pass over text made of kept characters and markers: the
      matches fall on kept characters only, each becomes a marker, and
      the result, as atoms `out`, reads back as the input. */
  lemma {:induction false} ScanAtoms(s: string, ph: string, i: nat, atoms: seq<Atom>, k: nat, markers: seq<Marker>)
    returns (out: seq<Atom>)
    requires ScanReady(s, ph, i, atoms, k, markers)
    ensures LiftedAs(s, ph, i, atoms, k, markers, out)
    decreases |s| - i, 2
  {
    if i == |s| {
      out := [];
      assert atoms == [];
      assert Scan(s, ph, i) == [];
      assert Show([]) == [] && Clean([], k);
    } else {
      assert atoms != [];
      assert atoms == [atoms[0]] + atoms[1..];
      if atoms[0].Mk? {
        out := ScanAtomsMarker(s, ph, i, atoms, k, markers);
      } else if MatchAt(s, ph, i) {
        out := ScanAtomsHit(s, ph, i, atoms, k, markers);
      } else {
        out := ScanAtomsLit(s, ph, i, atoms, k, markers);
      }
    }
  }

  lemma {:induction false} ScanAtomsMarker(s: string, ph: string, i: nat, atoms: seq<Atom>, k: nat, markers: seq<Marker>)
    returns (out: seq<Atom>)
    requires ScanReady(s, ph, i, atoms, k, markers) && i < |s| && atoms != [] && atoms[0].Mk?
    requires atoms == [atoms[0]] + atoms[1..]
    ensures LiftedAs(s, ph, i, atoms, k, markers, out)
    decreases |s| - i, 0
  {
    var e := i + |MarkerId(atoms[0].k)|;
    MarkerSetup(s, ph, i, atoms, k, markers);
    var rest := ScanAtoms(s, ph, e, atoms[1..], k, markers);
    out := [atoms[0]] + rest;
    MarkerClose(s, ph, i, atoms, k, markers, rest);
  }

  lemma {:induction false} ScanAtomsHit(s: string, ph: string, i: nat, atoms: seq<Atom>, k: nat, markers: seq<Marker>)
    returns (out: seq<Atom>)
    requires ScanReady(s, ph, i, atoms, k, markers) && i < |s| && atoms != [] && MatchAt(s, ph, i)
    ensures LiftedAs(s, ph, i, atoms, k, markers, out)
    decreases |s| - i, 1
  {
    var j, after := HitSetup(s, ph, i, atoms, k, markers);
    out := ScanAtomsPastHit(s, ph, i, j, atoms, after, k, markers);
  }

  /** After a match at `i`, the scan resumes at `j` over the atoms `after`. */
  lemma {:induction false} ScanAtomsPastHit(s: string, ph: string, i: nat, j: nat, atoms: seq<Atom>, after: seq<Atom>, k: nat, markers: seq<Marker>)
    returns (out: seq<Atom>)
    requires i < j <= |s| && ScanReady(s, ph, j, after, k + 1, markers)
    requires RenderPieces(Scan(s, ph, i), k) == MarkerId(k) + RenderPieces(Scan(s, ph, j), k + 1)
    requires |Hits(Scan(s, ph, i))| == 1 + |Hits(Scan(s, ph, j))|
    requires k < |markers| && Expand(atoms, markers) == markers[k].text + Expand(after, markers)
    ensures LiftedAs(s, ph, i, atoms, k, markers, out)
    decreases |s| - i, 0
  {
    var rest := ScanAtoms(s, ph, j, after, k + 1, markers);
    out := [Mk(k)] + rest;
    LiftHit(atoms, rest, k, k + |Hits(Scan(s, ph, i))|, markers[k].text, markers, after);
  }

  lemma {:induction false} ScanAtomsLit(s: string, ph: string, i: nat, atoms: seq<Atom>, k: nat, markers: seq<Marker>)
    returns (out: seq<Atom>)
    requires ScanReady(s, ph, i, atoms, k, markers) && i < |s| && atoms != [] && atoms[0].Ch? && !MatchAt(s, ph, i)
    requires atoms == [atoms[0]] + atoms[1..]
    ensures LiftedAs(s, ph, i, atoms, k, markers, out)
    decreases |s| - i, 0
  {
    LitSetup(s, ph, i, atoms, k, markers);
    var rest := ScanAtoms(s, ph, i + 1, atoms[1..], k, markers);
    out := [atoms[0]] + rest;
    LitClose(s, ph, i, atoms, k, markers, rest);
  }

  /** The scan from `e` is ready once its text, its atoms and its hits are. */
  lemma ReadyNext(s: string, ph: string, e: nat, rest: seq<Atom>, k: nat, markers: seq<Marker>, found: seq<string>)
    requires e <= |s| && SpellsAt(s, e, rest) && Clean(rest, k) && ph != [] && NoUnderscore(ph)
    requires Recorded(found, markers, k) && found == Hits(Scan(s, ph, e))
    ensures ScanReady(s, ph, e, rest, k, markers)
  {
  }

  /** A kept character where no match starts is copied. */
  lemma LitSetup(s: string, ph: string, i: nat, atoms: seq<Atom>, k: nat, markers: seq<Marker>)
    requires ScanReady(s, ph, i, atoms, k, markers)
    requires i < |s| && atoms != [] && atoms[0].Ch? && !MatchAt(s, ph, i)
    ensures atoms[0].c != '_' && ScanReady(s, ph, i + 1, atoms[1..], k, markers)
    ensures RenderPieces(Scan(s, ph, i), k) == [atoms[0].c] + RenderPieces(Scan(s, ph, i + 1), k)
    ensures Hits(Scan(s, ph, i)) == Hits(Scan(s, ph, i + 1))
  {
    assert s[i] == s[i..i + 1][0] == atoms[0].c;
    ScanLitRender(s, ph, i, k);
    CleanDrop(atoms, k, 1, k);
    ReadyNext(s, ph, i + 1, atoms[1..], k, markers, Hits(Scan(s, ph, i)));
  }

  lemma LitClose(s: string, ph: string, i: nat, atoms: seq<Atom>, k: nat, markers: seq<Marker>, out: seq<Atom>)
    requires i < |s| && atoms != [] && atoms[0].Ch? && atoms[0].c != '_'
    requires atoms == [atoms[0]] + atoms[1..]
    requires RenderPieces(Scan(s, ph, i), k) == [atoms[0].c] + RenderPieces(Scan(s, ph, i + 1), k)
    requires Hits(Scan(s, ph, i)) == Hits(Scan(s, ph, i + 1))
    requires LiftedAs(s, ph, i + 1, atoms[1..], k, markers, out)
    ensures LiftedAs(s, ph, i, atoms, k, markers, [atoms[0]] + out)
  {
    LiftCons(atoms[0], atoms[1..], out, k + |Hits(Scan(s, ph, i))|, markers);
  }

  /** No match starts inside a marker: the scan copies it whole. */
  lemma MarkerSetup(s: string, ph: string, i: nat, atoms: seq<Atom>, k: nat, markers: seq<Marker>)
    requires ScanReady(s, ph, i, atoms, k, markers) && atoms != [] && atoms[0].Mk?
    ensures i + |MarkerId(atoms[0].k)| <= |s| && atoms[0].k < k
    ensures ScanReady(s, ph, i + |MarkerId(atoms[0].k)|, atoms[1..], k, markers)
    ensures RenderPieces(Scan(s, ph, i), k)
      == MarkerId(atoms[0].k) + RenderPieces(Scan(s, ph, i + |MarkerId(atoms[0].k)|), k)
    ensures Hits(Scan(s, ph, i)) == Hits(Scan(s, ph, i + |MarkerId(atoms[0].k)|))
  {
    MarkerCopied(s, ph, i, atoms[0].k, k);
    CleanDrop(atoms, k, 1, k);
    ReadyNext(s, ph, i + |MarkerId(atoms[0].k)|, atoms[1..], k, markers, Hits(Scan(s, ph, i)));
  }

  lemma MarkerCopied(s: string, ph: string, i: nat, m: nat, k: nat)
    requires i + |MarkerId(m)| <= |s| && s[i..i + |MarkerId(m)|] == MarkerId(m)
    requires ph != [] && NoUnderscore(ph)
    ensures RenderPieces(Scan(s, ph, i), k) == MarkerId(m) + RenderPieces(Scan(s, ph, i + |MarkerId(m)|), k)
    ensures Hits(Scan(s, ph, i)) == Hits(Scan(s, ph, i + |MarkerId(m)|))
  {
    NoMatchInMarker(s, ph, i, m);
    ScanCopies(s, ph, i, i + |MarkerId(m)|, k);
  }

  lemma MarkerClose(s: string, ph: string, i: nat, atoms: seq<Atom>, k: nat, markers: seq<Marker>, out: seq<Atom>)
    requires atoms != [] && atoms[0].Mk? && atoms[0].k < k
    requires i + |MarkerId(atoms[0].k)| <= |s|
    requires atoms == [atoms[0]] + atoms[1..]
    requires RenderPieces(Scan(s, ph, i), k)
      == MarkerId(atoms[0].k) + RenderPieces(Scan(s, ph, i + |MarkerId(atoms[0].k)|), k)
    requires Hits(Scan(s, ph, i)) == Hits(Scan(s, ph, i + |MarkerId(atoms[0].k)|))
    requires LiftedAs(s, ph, i + |MarkerId(atoms[0].k)|, atoms[1..], k, markers, out)
    ensures LiftedAs(s, ph, i, atoms, k, markers, [atoms[0]] + out)
  {
    LiftCons(atoms[0], atoms[1..], out, k + |Hits(Scan(s, ph, i))|, markers);
  }

  /** A match covers kept characters only; the next marker records it. */
  lemma HitSetup(s: string, ph: string, i: nat, atoms: seq<Atom>, k: nat, markers: seq<Marker>)
    returns (j: nat, after: seq<Atom>)
    requires ScanReady(s, ph, i, atoms, k, markers)
    requires i < |s| && atoms != [] && MatchAt(s, ph, i)
    ensures i < j <= |s| && ScanReady(s, ph, j, after, k + 1, markers)
    ensures RenderPieces(Scan(s, ph, i), k) == MarkerId(k) + RenderPieces(Scan(s, ph, j), k + 1)
    ensures |Hits(Scan(s, ph, i))| == 1 + |Hits(Scan(s, ph, j))|
    ensures k < |markers| && Expand(atoms, markers) == markers[k].text + Expand(after, markers)
  {
    hide *;
    ReadyParts(s, ph, i, atoms, k, markers);
    HitRecorded(s, ph, i, k, markers);
    after := HitNext(s, ph, i, atoms, k, markers);
    j := i + |ph|;
    ReadyFrom(s, ph, j, after, k + 1, markers);
  }

  lemma ReadyParts(s: string, ph: string, i: nat, atoms: seq<Atom>, k: nat, markers: seq<Marker>)
    requires ScanReady(s, ph, i, atoms, k, markers)
    ensures i <= |s| && AtomsReady(s, ph, i, atoms, k) && ph != [] && NoUnderscore(ph)
    ensures Recorded(Hits(Scan(s, ph, i)), markers, k)
  {
  }

  lemma ReadyFrom(s: string, ph: string, i: nat, atoms: seq<Atom>, k: nat, markers: seq<Marker>)
    requires i <= |s| && AtomsReady(s, ph, i, atoms, k) && Recorded(Hits(Scan(s, ph, i)), markers, k)
    ensures ScanReady(s, ph, i, atoms, k, markers)
  {
  }

  /** Past a match, the atoms left over are ready for the rest of the scan. */
  lemma HitNext(s: string, ph: string, i: nat, atoms: seq<Atom>, k: nat, markers: seq<Marker>)
    returns (after: seq<Atom>)
    requires AtomsReady(s, ph, i, atoms, k) && i + |ph| <= |s| && NoUnderscore(s[i..i + |ph|])
    ensures AtomsReady(s, ph, i + |ph|, after, k + 1)
    ensures Expand(atoms, markers) == s[i..i + |ph|] + Expand(after, markers)
  {
    var m := |ph|;
    HitSpells(s, i, atoms, m);
    CleanDrop(atoms, k, m, k + 1);
    HitExpands(s, i, atoms, m, markers);
    after := atoms[m..];
  }

  /** A match takes the next recorded marker and spans no `_`. */
  lemma HitRecorded(s: string, ph: string, i: nat, k: nat, markers: seq<Marker>)
    requires ph != [] && i <= |s| && MatchAt(s, ph, i) && NoUnderscore(ph)
    requires Recorded(Hits(Scan(s, ph, i)), markers, k)
    ensures i + |ph| <= |s| && k < |markers| && markers[k].text == s[i..i + |ph|]
    ensures NoUnderscore(s[i..i + |ph|])
    ensures Recorded(Hits(Scan(s, ph, i + |ph|)), markers, k + 1)
    ensures RenderPieces(Scan(s, ph, i), k) == MarkerId(k) + RenderPieces(Scan(s, ph, i + |ph|), k + 1)
    ensures |Hits(Scan(s, ph, i))| == 1 + |Hits(Scan(s, ph, i + |ph|))|
  {
    ScanHitRender(s, ph, i, k);
    RecordedTail(s[i..i + |ph|], Hits(Scan(s, ph, i + |ph|)), Hits(Scan(s, ph, i)), markers, k);
    MatchAtNoUnderscore(s, ph, i);
  }

  /** A match of a phrase without `_` spans no `_`. */
  lemma MatchAtNoUnderscore(s: string, ph: string, i: nat)
    requires i <= |s| && MatchAt(s, ph, i) && NoUnderscore(ph)
    ensures i + |ph| <= |s| && NoUnderscore(s[i..i + |ph|])
  {
    MatchNoUnderscore(s[i..i + |ph|], ph);
  }

  lemma ScanHitRender(s: string, ph: string, i: nat, k: nat)
    requires ph != [] && i <= |s| && MatchAt(s, ph, i)
    ensures RenderPieces(Scan(s, ph, i), k) == MarkerId(k) + RenderPieces(Scan(s, ph, i + |ph|), k + 1)
    ensures Hits(Scan(s, ph, i)) == [s[i..i + |ph|]] + Hits(Scan(s, ph, i + |ph|))
  {
    ScanHitStep(s, ph, i);
    assert Scan(s, ph, i)[1..] == Scan(s, ph, i + |ph|);
  }

  /** A kept character or an earlier marker in front of lifted atoms. */
  lemma LiftCons(a: Atom, rest: seq<Atom>, out: seq<Atom>, n: nat, markers: seq<Marker>)
    requires (a.Ch? ==> a.c != '_') && (a.Mk? ==> a.k < n) && Clean(out, n)
    requires Expand(out, markers) == Expand(rest, markers)
    ensures Clean([a] + out, n) && Show([a] + out) == AtomText(a) + Show(out)
    ensures Expand([a] + out, markers) == Expand([a] + rest, markers)
  {
    CleanCons(a, out, n);
    ShowCons(a, out);
    assert ([a] + out)[1..] == out;
    assert ([a] + rest)[1..] == rest;
  }

  /** A match of kept characters becomes the marker that records it. */
  lemma LiftHit(atoms: seq<Atom>, out: seq<Atom>, k: nat, n: nat, hit: string, markers: seq<Marker>, rest: seq<Atom>)
    requires k < n && Clean(out, n) && k < |markers| && markers[k].text == hit
    requires Expand(out, markers) == Expand(rest, markers)
    requires Expand(atoms, markers) == hit + Expand(rest, markers)
    ensures Clean([Mk(k)] + out, n) && Show([Mk(k)] + out) == MarkerId(k) + Show(out)
    ensures Expand([Mk(k)] + out, markers) == Expand(atoms, markers)
  {
    CleanCons(Mk(k), out, n);
    ShowCons(Mk(k), out);
    ExpandCons(Mk(k), out, markers);
  }

  /** The phrase loop over text made of kept characters and markers reads
      back, through the markers it ends with, as that text read through
      the markers it started with. */
  lemma {:induction false} PhrasePassReadsBack(atoms: seq<Atom>, phrases: seq<string>, markers: seq<Marker>)
    requires Clean(atoms, |markers|) && NumberedFromZero(markers) && PhrasesOk(phrases)
    ensures Unmark(PhrasePass(Show(atoms), phrases, markers).0, PhrasePass(Show(atoms), phrases, markers).1)
      == Expand(atoms, markers)
    decreases |phrases|
  {
    var s := Show(atoms);
    if phrases == [] {
      UnmarkShow(atoms, markers);
    } else {
      var ph := phrases[0];
      assert ph in phrases;
      var ps := Scan(s, ph, 0);
      var next := markers + Numbered(Hits(ps), |markers|);
      var r := PhrasePass(RenderPieces(ps, |markers|), phrases[1..], next);
      assert r == PhrasePass(s, phrases, markers);
      assert Recorded(Hits(ps), r.1, |markers|) by {
        forall j | 0 <= j < |Hits(ps)| ensures r.1[|markers| + j].text == Hits(ps)[j] {
          assert r.1[|markers| + j] == r.1[..|next|][|markers| + j] == next[|markers| + j];
        }
      }
      ShowSpells([], atoms);
      assert [] + s == s;
      var out := ScanAtoms(s, ph, 0, atoms, |markers|, r.1);
      NumberedExtends(markers, Hits(ps));
      assert PhrasesOk(phrases[1..]) by {
        forall q | q in phrases[1..] ensures q != [] && NoUnderscore(q) {
          assert q in phrases;
        }
      }
      PhrasePassReadsBack(out, phrases[1..], next);
      ExpandExtend(out, next, r.1);
      ExpandExtend(atoms, markers, r.1);
    }
  }

  /** Pass 1 read back: when neither the text nor the phrases contain `_`,
      reading each marker as the match it replaced gives the text back. */
  lemma PassReadsBack(raw: string, phrases: seq<string>)
    ensures NoUnderscore(raw) && PhrasesOk(phrases) ==>
      Unmark(PhrasePass(raw, phrases, []).0, PhrasePass(raw, phrases, []).1) == raw
  {
    if NoUnderscore(raw) && PhrasesOk(phrases) {
      CharsShow(raw, []);
      PhrasePassReadsBack(Chars(raw), phrases, []);
    }
  }

  // ---------------------------------------------------------------------
  // Pass 3: markers replaced by phrase spans (app.js:201-208)

  /** `s.replaceAll(needle, rep)` for a non-empty string pattern. */
  function ReplaceAll(s: string, needle: string, rep: string): string
    requires needle != []
    decreases |s|
  {
    if s == [] then []
    else if needle <= s then rep + ReplaceAll(s[|needle|..], needle, rep)
    else [s[0]] + ReplaceAll(s[1..], needle, rep)
  }

  lemma {:induction false} ReplaceAllAbsent(s: string, needle: string, rep: string)
    requires needle != []
    requires forall i :: !OccursAt(needle, s, i)
    ensures ReplaceAll(s, needle, rep) == s
    decreases |s|
  {
    if s != [] {
      assert !OccursAt(needle, s, 0);
      assert !(needle <= s);
      assert forall i :: !OccursAt(needle, s[1..], i) by {
        forall i ensures !OccursAt(needle, s[1..], i) {
          assert !OccursAt(needle, s, i + 1);
          if 0 <= i && i + |needle| <= |s| - 1 {
            assert s[1..][i..i + |needle|] == s[i + 1..i + 1 + |needle|];
          }
        }
      }
      ReplaceAllAbsent(s[1..], needle, rep);
    }
  }

  /** No marker id occurs anywhere in `t`. */
  ghost predicate NoMarkerIn(t: string, markers: seq<Marker>) {
    forall k, i :: 0 <= k < |markers| ==> !OccursAt(markers[k].id, t, i)
  }

  /** Each marker id, in list order, replaced everywhere by its phrase span;
      a text holding none of the ids comes back unchanged. */
  function RestoreMarkers(t: string, markers: seq<Marker>): (r: string)
    requires forall k :: 0 <= k < |markers| ==> markers[k].id != []
    ensures NoMarkerIn(t, markers) ==> r == t
    decreases |markers|
  {
    if markers == [] then t
    else
      var mk := markers[0];
      var next := ReplaceAll(t, mk.id, PhraseSpan(EscapeHtml(mk.text)));
      assert NoMarkerIn(t, markers) ==> next == t && NoMarkerIn(t, markers[1..]) by {
        if NoMarkerIn(t, markers) {
          assert forall i :: !OccursAt(markers[0].id, t, i);
          ReplaceAllAbsent(t, mk.id, PhraseSpan(EscapeHtml(mk.text)));
          forall k, i | 0 <= k < |markers| - 1 ensures !OccursAt(markers[1..][k].id, t, i) {
            assert markers[1..][k] == markers[k + 1];
          }
        }
      }
      RestoreMarkers(next, markers[1..])
  }

  // ---------------------------------------------------------------------
  // The whole annotator

  /** `wrapTextWithClicks(text, ds)` with `ds.phraseIndex` given directly;
      missing text is `None`. */
  function WrapTextWithClicks(text: Option<string>, phraseIndex: seq<string>): (out: string)
    ensures text.None? || text.value == "" ==> out == ""
  {
    var raw := if text.Some? then text.value else "";
    if raw == "" then ""
    else
      var p := Pass1(raw, phraseIndex);
      NumberedIdsNonEmpty(p.1, 0);
      RestoreMarkers(WrapWords(p.0), p.1)
  }

  // ---------------------------------------------------------------------
  // Properties

  /** Marker ids are pairwise distinct. */
  lemma MarkerIdsDistinct(j: nat, k: nat)
    requires j != k
    ensures MarkerId(j) != MarkerId(k)
  {
    if MarkerId(j) == MarkerId(k) {
      var a, b := MarkerId(j), MarkerId(k);
      assert a[5..|a| - 2] == Decimal(j);
      assert b[5..|b| - 2] == Decimal(k);
      DecimalInjective(j, k);
    }
  }

  /** Only the first 500 phrases of the index are ever tried. */
  lemma PhraseCap(text: Option<string>, phraseIndex: seq<string>)
    requires |phraseIndex| > 500
    ensures WrapTextWithClicks(text, phraseIndex) == WrapTextWithClicks(text, phraseIndex[..500])
  {
    assert Take(phraseIndex[..500], 500) == Take(phraseIndex, 500);
  }

  /** One phrase pass changes the text only by putting markers where the
      matches were: when neither the text nor the phrase contains `_`,
      reading each marker back as the match it replaced gives the text. */
  lemma ScanRoundTrip(s: string, ph: string)
    requires NoUnderscore(s) && ph != [] && NoUnderscore(ph)
    ensures Unmark(RenderPieces(Scan(s, ph, 0), 0), Numbered(Hits(Scan(s, ph, 0)), 0)) == s
  {
    var ps := Scan(s, ph, 0);
    assert PhrasesOk([ph]);
    PassReadsBack(s, [ph]);
    assert [] + Numbered(Hits(ps), 0) == Numbered(Hits(ps), 0);
    assert PhrasePass(s, [ph], []) == (RenderPieces(ps, 0), Numbered(Hits(ps), 0));
  }

  /** No underscore in `t` is directly followed by a letter. */
  predicate NoUnderscoreBeforeLetter(t: string) {
    forall i :: 0 <= i < |t| - 1 && t[i] == '_' ==> !IsLetter(t[i + 1])
  }

  predicate NoUnderscore(t: string) {
    forall i :: 0 <= i < |t| ==> t[i] != '_'
  }

  lemma NoUnderscoreCat(a: string, b: string)
    requires NoUnderscore(a) && NoUnderscore(b)
    ensures NoUnderscore(a + b)
  {
    forall i | 0 <= i < |a + b| ensures (a + b)[i] != '_' {
      if i < |a| {
        assert (a + b)[i] == a[i];
      } else {
        assert (a + b)[i] == b[i - |a|];
      }
    }
  }

  lemma WordSpanHasNoUnderscore(w: string)
    requires TokenOk(Run(w))
    ensures NoUnderscore(WordSpan(w))
  {
    RunHasNoMarkup(w);
    RunNoUnderscore(w);
    MarkupNoUnderscore();
    NoUnderscoreCat(KwOpen, w);
    NoUnderscoreCat(KwOpen + w, "\">");
    NoUnderscoreCat(KwOpen + w + "\">", w);
    NoUnderscoreCat(KwOpen + w + "\">" + w, SpanClose);
  }

  lemma RunNoUnderscore(w: string)
    requires forall k :: 0 <= k < |w| ==> IsRunChar(w[k])
    ensures NoUnderscore(w)
  {
    forall k | 0 <= k < |w| ensures w[k] != '_' {
      assert IsRunChar(w[k]);
    }
  }

  lemma MarkupNoUnderscore()
    ensures NoUnderscore(KwOpen) && NoUnderscore("\">") && NoUnderscore(SpanClose)
  {
  }

  /** Gluing two such texts keeps the property when the second does not
      start with a letter. */
  lemma NoUnderscoreBeforeLetterCat(h: string, r: string)
    requires NoUnderscoreBeforeLetter(h) && NoUnderscoreBeforeLetter(r)
    requires r == [] || !IsLetter(r[0])
    ensures NoUnderscoreBeforeLetter(h + r)
  {
    forall i | 0 <= i < |h + r| - 1 && (h + r)[i] == '_' ensures !IsLetter((h + r)[i + 1]) {
      if i >= |h| {
        assert (h + r)[i] == r[i - |h|] && (h + r)[i + 1] == r[i + 1 - |h|];
      } else if i + 1 < |h| {
        assert (h + r)[i] == h[i] && (h + r)[i + 1] == h[i + 1];
      } else {
        assert (h + r)[i + 1] == r[0];
      }
    }
  }

  lemma TokenNoUnderscoreBeforeLetter(t: Token)
    requires TokenOk(t)
    ensures NoUnderscoreBeforeLetter(RenderToken(t))
  {
    if t.Run? {
      WordSpanHasNoUnderscore(t.w);
    }
  }

  /** The word pass leaves no underscore in front of a letter: every letter
      of its output sits inside a span, which has no underscore, or right
      after the `<` that opens one. */
  lemma {:induction false} RenderNoUnderscoreBeforeLetter(ts: seq<Token>)
    requires forall i :: 0 <= i < |ts| ==> TokenOk(ts[i])
    ensures NoUnderscoreBeforeLetter(Render(ts))
    decreases |ts|
  {
    if ts != [] {
      var rest := ts[1..];
      assert forall i :: 0 <= i < |rest| ==> TokenOk(rest[i]) by {
        assert forall i :: 0 <= i < |rest| ==> rest[i] == ts[i + 1];
      }
      RenderNoUnderscoreBeforeLetter(rest);
      RenderStart(rest);
      assert TokenOk(ts[0]);
      TokenNoUnderscoreBeforeLetter(ts[0]);
      NoUnderscoreBeforeLetterCat(RenderToken(ts[0]), Render(rest));
    }
  }

  lemma MarkerAbsent(t: string, k: nat)
    requires NoUnderscoreBeforeLetter(t)
    ensures forall i :: !OccursAt(MarkerId(k), t, i)
  {
    var m := MarkerId(k);
    assert m[1] == '_' && m[2] == 'P';
    forall i ensures !OccursAt(m, t, i) {
      if 0 <= i && i + |m| <= |t| {
        assert t[i..i + |m|][1] == t[i + 1] && t[i..i + |m|][2] == t[i + 2];
      }
    }
  }

  lemma {:induction false} RestoreIsIdentity(t: string, markers: seq<Marker>, base: nat)
    requires NoUnderscoreBeforeLetter(t) && NumberedFrom(markers, base)
    requires forall k :: 0 <= k < |markers| ==> markers[k].id != []
    ensures RestoreMarkers(t, markers) == t
    decreases |markers|
  {
    if markers != [] {
      var m := markers[0];
      NumberedTail(markers, base);
      NumberedIdsNonEmpty(markers[1..], base + 1);
      MarkerAbsent(t, base);
      ReplaceAllAbsent(t, m.id, PhraseSpan(EscapeHtml(m.text)));
      RestoreIsIdentity(t, markers[1..], base + 1);
    }
  }

  /** As written, pass 3 never fires: the output is the word pass applied
      to the pass-1 text, so it carries no phrase span and shows every
      marker `__PH_k__` as literal text in place of its phrase. */
  lemma PhraseSpansNeverEmitted(raw: string, phraseIndex: seq<string>)
    requires raw != ""
    ensures WrapTextWithClicks(Some(raw), phraseIndex) == WrapWords(Pass1(raw, phraseIndex).0)
    ensures Visible(Decode(WrapTextWithClicks(Some(raw), phraseIndex))) == Pass1(raw, phraseIndex).0
    ensures PhraseTerms(Decode(WrapTextWithClicks(Some(raw), phraseIndex))) == []
  {
    var p := Pass1(raw, phraseIndex);
    NumberedIdsNonEmpty(p.1, 0);
    RestoreIsIdentity(WrapWords(p.0), p.1, 0);
  }

  /** With an empty phrase index every maximal word run is wrapped exactly
      once, as a word span whose term is the run, everything else is copied
      through, and removing the spans gives the text back. */
  lemma WrapsEveryWordOnce(raw: string)
    requires raw != ""
    ensures WrapTextWithClicks(Some(raw), []) == Render(Lex(raw))
    ensures Decode(WrapTextWithClicks(Some(raw), [])) == TokenUnits(Lex(raw))
    ensures Visible(Decode(WrapTextWithClicks(Some(raw), []))) == raw
  {
    PhraseSpansNeverEmitted(raw, []);
  }

  /** Text without ASCII letters, markup characters included, comes out
      exactly as it went in: nothing is escaped. */
  lemma {:induction false} NoLettersPassThrough(raw: string)
    requires forall i :: 0 <= i < |raw| ==> !IsLetter(raw[i])
    ensures WrapWords(raw) == raw
    decreases |raw|
  {
    if raw != [] {
      NoLettersPassThrough(raw[1..]);
      assert Lex(raw) == [Sym(raw[0])] + Lex(raw[1..]);
      assert Render(Lex(raw)) == [raw[0]] + Render(Lex(raw[1..]));
    }
  }

  lemma RawMarkupCopied()
    ensures WrapTextWithClicks(Some("1 < 2"), []) == "1 < 2"
  {
    var s := "1 < 2";
    assert forall i :: 0 <= i < |s| ==> !IsLetter(s[i]);
    NoLettersPassThrough(s);
    PhraseSpansNeverEmitted(s, []);
  }
  /** Where the phrase "so on" matches in "and so on": only after `and `. */
  lemma MatchExample()
    ensures !MatchAt("and so on", "so on", 0) && !MatchAt("and so on", "so on", 1)
    ensures !MatchAt("and so on", "so on", 2) && !MatchAt("and so on", "so on", 3)
    ensures MatchAt("and so on", "so on", 4)
  {
    var s, ph := "and so on", "so on";
    assert !Boundary(s, 1) && !Boundary(s, 2);
    assert Lower(s[0..5])[0] != Lower(ph)[0];
    assert Lower(s[3..8])[0] != Lower(ph)[0];
    assert s[4..9] == ph;
  }

  lemma ScanExample()
    ensures Scan("and so on", "so on", 0) == [Lit('a'), Lit('n'), Lit('d'), Lit(' '), Hit("so on")]
  {
    var s, ph := "and so on", "so on";
    MatchExample();
    assert Scan(s, ph, 9) == [];
    assert s[4..9] == ph;
    assert Scan(s, ph, 4) == [Hit(ph)];
    assert Scan(s, ph, 3) == [Lit(' '), Hit(ph)];
    assert Scan(s, ph, 2) == [Lit('d'), Lit(' '), Hit(ph)];
    assert Scan(s, ph, 1) == [Lit('n'), Lit('d'), Lit(' '), Hit(ph)];
  }

  lemma RenderExample()
    ensures RenderPieces([Lit('a'), Lit('n'), Lit('d'), Lit(' '), Hit("so on")], 0) == "and __PH_0__"
  {
    RenderLitsThenHit("and ", "so on", [Lit('a'), Lit('n'), Lit('d'), Lit(' '), Hit("so on")], 0);
    assert Decimal(0) == "0";
  }

  lemma {:induction false} RenderLitsThenHit(cs: string, t: string, ps: seq<Piece>, k: nat)
    requires |ps| == |cs| + 1 && ps[|cs|] == Hit(t)
    requires forall i :: 0 <= i < |cs| ==> ps[i] == Lit(cs[i])
    ensures RenderPieces(ps, k) == cs + MarkerId(k)
    decreases |cs|
  {
    if cs == [] {
      assert ps[1..] == [];
    } else {
      assert forall i :: 0 <= i < |cs[1..]| ==> ps[1..][i] == Lit(cs[1..][i]) by {
        assert forall i :: 0 <= i < |cs[1..]| ==> ps[1..][i] == ps[i + 1] && cs[1..][i] == cs[i + 1];
      }
      RenderLitsThenHit(cs[1..], t, ps[1..], k);
      assert cs == [cs[0]] + cs[1..];
    }
  }

  lemma Pass1Example()
    ensures Pass1("and so on", ["so on"]).0 == "and __PH_0__"
  {
    ScanExample();
    RenderExample();
    assert Take(["so on"], 500) == ["so on"];
  }

  /** The discrepancy on one input: with the phrase "so on" indexed, the
      text "and so on" shows `and __PH_0__` and carries no phrase span. */
  lemma MarkerShownLiterally()
    ensures Visible(Decode(WrapTextWithClicks(Some("and so on"), ["so on"]))) == "and __PH_0__"
    ensures PhraseTerms(Decode(WrapTextWithClicks(Some("and so on"), ["so on"]))) == []
  {
    Pass1Example();
    PhraseSpansNeverEmitted("and so on", ["so on"]);
  }
}

/** The annotator as its three passes evidently intend it: phrases found by
    pass 1 come out as phrase spans, and no marker is left in the output.
    Pass 1 keeps its matching rules (longest phrases first, `\b` on both
    sides, the `i` flag, non-overlapping left-to-right matches, an earlier
    claim counting as word characters, as the marker standing for it does);
    the word pass then runs only over the text between claimed phrases. */
module AnnotateFixed {
  import opened Common
  import opened Text
  import opened Escape
  import opened Annotate

  /** A claimed phrase is written as a marker made of word characters. */
  predicate IsWordPiece(p: Piece) {
    match p
    case Lit(c) => IsWordChar(c)
    case Hit(_) => true
  }

  /** `\b` at position `i` of a piece sequence. */
  predicate PieceBoundary(ps: seq<Piece>, i: int)
    requires 0 <= i <= |ps|
  {
    (0 < i && IsWordPiece(ps[i - 1])) != (i < |ps| && IsWordPiece(ps[i]))
  }

  predicate AllLit(ps: seq<Piece>) {
    forall k :: 0 <= k < |ps| ==> ps[k].Lit?
  }

  /** A phrase matches at `i` over unclaimed characters only. */
  predicate PieceMatchAt(ps: seq<Piece>, ph: string, i: int)
    requires 0 <= i <= |ps|
  {
    && i + |ph| <= |ps|
    && AllLit(ps[i..i + |ph|])
    && PieceBoundary(ps, i)
    && EqIgnoreCase(Original(ps[i..i + |ph|]), ph)
    && PieceBoundary(ps, i + |ph|)
  }

  /** One phrase claimed wherever it matches, left to right, without overlaps. */
  function Claim(ps: seq<Piece>, ph: string, i: nat): (r: seq<Piece>)
    requires ph != [] && i <= |ps|
    decreases |ps| - i
  {
    if PieceMatchAt(ps, ph, i) then [Hit(Original(ps[i..i + |ph|]))] + Claim(ps, ph, i + |ph|)
    else if i < |ps| then [ps[i]] + Claim(ps, ph, i + 1)
    else []
  }

  /** Every phrase in turn; an empty phrase claims nothing. */
  function ClaimAll(ps: seq<Piece>, phrases: seq<string>): (r: seq<Piece>)
    decreases |phrases|
  {
    if phrases == [] then ps
    else if phrases[0] == [] then ClaimAll(ps, phrases[1..])
    else ClaimAll(Claim(ps, phrases[0], 0), phrases[1..])
  }

  /** Claiming keeps the text: only the grouping of characters changes. */
  lemma ClaimOriginal(ps: seq<Piece>, ph: string, i: nat)
    requires ph != [] && i <= |ps|
    ensures Original(Claim(ps, ph, i)) == Original(ps[i..])
  {
    ClaimKeptFrom(ps, ph, i);
  }

  predicate ClaimKept(ps: seq<Piece>, ph: string, i: nat)
    requires ph != [] && i <= |ps|
  {
    Original(Claim(ps, ph, i)) == Original(ps[i..])
  }

  lemma ClaimKeepStep(ps: seq<Piece>, ph: string, i: nat, n: nat, p: Piece)
    requires ph != [] && i <= n <= |ps| && PieceText(p) == Original(ps[i..n])
    requires Claim(ps, ph, i) == [p] + Claim(ps, ph, n)
    requires ClaimKept(ps, ph, n)
    ensures ClaimKept(ps, ph, i)
  {
    OriginalSplit(ps, i, n);
    OriginalCons(p, Claim(ps, ph, n));
  }

  lemma {:induction false} ClaimKeptFrom(ps: seq<Piece>, ph: string, i: nat)
    requires ph != [] && i <= |ps|
    ensures ClaimKept(ps, ph, i)
    decreases |ps| - i, 1
  {
    if PieceMatchAt(ps, ph, i) {
      ClaimKeptHit(ps, ph, i);
    } else if i < |ps| {
      ClaimKeptLit(ps, ph, i);
    } else {
      ClaimEnd(ps, ph);
    }
  }

  lemma {:induction false} ClaimKeptHit(ps: seq<Piece>, ph: string, i: nat)
    requires ph != [] && i <= |ps| && PieceMatchAt(ps, ph, i)
    ensures ClaimKept(ps, ph, i)
    decreases |ps| - i, 0
  {
    var n: nat := i + |ph|;
    ClaimKeptFrom(ps, ph, n);
    ClaimHitStep(ps, ph, i);
    ClaimKeepStep(ps, ph, i, n, Hit(Original(ps[i..n])));
  }

  lemma {:induction false} ClaimKeptLit(ps: seq<Piece>, ph: string, i: nat)
    requires ph != [] && i < |ps| && !PieceMatchAt(ps, ph, i)
    ensures ClaimKept(ps, ph, i)
    decreases |ps| - i, 0
  {
    var n: nat := i + 1;
    ClaimKeptFrom(ps, ph, n);
    ClaimLitStep(ps, ph, i);
    assert ps[i..n] == [ps[i]] + [];
    OriginalCons(ps[i], []);
    ClaimKeepStep(ps, ph, i, n, ps[i]);
  }

  lemma {:induction false} ClaimAllOriginal(ps: seq<Piece>, phrases: seq<string>)
    ensures Original(ClaimAll(ps, phrases)) == Original(ps)
    decreases |phrases|
  {
    if phrases != [] {
      if phrases[0] == [] {
        ClaimAllOriginal(ps, phrases[1..]);
      } else {
        ClaimOriginal(ps, phrases[0], 0);
        assert ps[0..] == ps;
        ClaimAllOriginal(Claim(ps, phrases[0], 0), phrases[1..]);
      }
    }
  }

  /** The unclaimed text, one piece per character. */
  function Lits(s: string): (ps: seq<Piece>)
    ensures |ps| == |s|
    decreases |s|
  {
    if s == [] then [] else [Lit(s[0])] + Lits(s[1..])
  }

  /** The number of leading unclaimed pieces. */
  function LitRun(ps: seq<Piece>): (n: nat)
    ensures n <= |ps| && AllLit(ps[..n])
    ensures n < |ps| ==> ps[n].Hit?
    decreases |ps|
  {
    if ps == [] || ps[0].Hit? then 0
    else
      var n := 1 + LitRun(ps[1..]);
      assert forall k :: 1 <= k < n ==> ps[..n][k] == ps[1..][..n - 1][k - 1];
      n
  }

  /** Unclaimed stretches go through the word pass; claims become phrase spans. */
  function RenderClaimed(ps: seq<Piece>): string
    decreases |ps|
  {
    if ps == [] then []
    else
      var n := LitRun(ps);
      if n > 0 then WrapWords(Original(ps[..n])) + RenderClaimed(ps[n..])
      else PhraseSpan(EscapeHtml(ps[0].text)) + RenderClaimed(ps[1..])
  }

  /** The intended units: word spans and plain characters for the
      unclaimed stretches, one phrase span per claim. */
  function ClaimedUnits(ps: seq<Piece>): seq<Unit>
    decreases |ps|
  {
    if ps == [] then []
    else
      var n := LitRun(ps);
      if n > 0 then TokenUnits(Lex(Original(ps[..n]))) + ClaimedUnits(ps[n..])
      else [PhraseUnit(ps[0].text)] + ClaimedUnits(ps[1..])
  }

  /** `wrapTextWithClicks` with the phrase spans emitted. */
  function WrapTextWithClicksFixed(text: Option<string>, phraseIndex: seq<string>): (out: string)
    ensures text.None? || text.value == "" ==> out == ""
    ensures text.Some? && text.value != "" ==>
      Visible(Decode(out)) == text.value &&
      PhraseTerms(Decode(out)) == Hits(ClaimAll(Lits(text.value), Take(phraseIndex, 500)))
  {
    var raw := if text.Some? then text.value else "";
    if raw == "" then ""
    else
      var ps := ClaimAll(Lits(raw), Take(phraseIndex, 500));
      DecodeClaimed(ps);
      ClaimedVisible(ps);
      ClaimAllOriginal(Lits(raw), Take(phraseIndex, 500));
      OriginalLits(raw);
      RenderClaimed(ps)
  }

  // ---------------------------------------------------------------------
  // Properties

  lemma OriginalLits(s: string)
    ensures Original(Lits(s)) == s
  {
    LitsOfLits(s);
    OriginalOfLits(Lits(s), s);
  }

  lemma RenderClaimedStart(ps: seq<Piece>)
    requires ps != [] && ps[0].Hit?
    ensures RenderClaimed(ps) != [] && RenderClaimed(ps)[0] == '<'
  {
    assert LitRun(ps) == 0;
  }

  lemma WellLexedOk(ts: seq<Token>)
    requires WellLexed(ts)
    ensures forall i :: 0 <= i < |ts| ==> TokenOk(ts[i])
  {
  }

  /** Reading the corrected output back gives the intended units. */
  lemma {:induction false} DecodeClaimed(ps: seq<Piece>)
    ensures Decode(RenderClaimed(ps)) == ClaimedUnits(ps)
    decreases |ps|
  {
    if ps != [] {
      var n := LitRun(ps);
      if n > 0 {
        var u := Original(ps[..n]);
        var tail := RenderClaimed(ps[n..]);
        DecodeClaimed(ps[n..]);
        if n < |ps| {
          RenderClaimedStart(ps[n..]);
        }
        WellLexedOk(Lex(u));
        DecodeRender(Lex(u), tail);
      } else {
        var t := ps[0].text;
        var tail := RenderClaimed(ps[1..]);
        DecodeClaimed(ps[1..]);
        DecodePhraseSpan(t, tail);
        var sp := PhraseSpan(EscapeHtml(t));
        DecodeSpan(sp + tail, PhraseUnit(t), |sp|);
        assert (sp + tail)[|sp|..] == tail;
      }
    }
  }

  lemma {:induction false} HitsOfLits(ps: seq<Piece>)
    requires AllLit(ps)
    ensures Hits(ps) == []
    decreases |ps|
  {
    if ps != [] {
      assert AllLit(ps[1..]) by {
        assert forall k :: 0 <= k < |ps[1..]| ==> ps[1..][k] == ps[k + 1];
      }
      HitsOfLits(ps[1..]);
    }
  }

  lemma {:induction false} HitsAppend(a: seq<Piece>, b: seq<Piece>)
    ensures Hits(a + b) == Hits(a) + Hits(b)
    decreases |a|
  {
    if a == [] {
      assert a + b == b;
    } else {
      var h := if a[0].Hit? then [a[0].text] else [];
      assert (a + b)[0] == a[0] && (a + b)[1..] == a[1..] + b;
      assert Hits(a + b) == h + Hits(a[1..] + b);
      HitsAppend(a[1..], b);
      assert h + (Hits(a[1..]) + Hits(b)) == (h + Hits(a[1..])) + Hits(b);
    }
  }

  /** Removing the span markup gives back the raw text, and there is one
      phrase span per claim. */
  lemma {:induction false} ClaimedVisible(ps: seq<Piece>)
    ensures Visible(ClaimedUnits(ps)) == Original(ps)
    ensures PhraseTerms(ClaimedUnits(ps)) == Hits(ps)
    decreases |ps|
  {
    if ps != [] {
      var n := LitRun(ps);
      if n > 0 {
        ClaimedVisible(ps[n..]);
        ClaimedRunStep(ps, n);
      } else {
        ClaimedVisible(ps[1..]);
        ClaimedHitStep(ps);
      }
    }
  }

  predicate ClaimedShows(ps: seq<Piece>) {
    Visible(ClaimedUnits(ps)) == Original(ps) && PhraseTerms(ClaimedUnits(ps)) == Hits(ps)
  }

  lemma ClaimedRunStep(ps: seq<Piece>, n: nat)
    requires ps != [] && n == LitRun(ps) && n > 0
    requires ClaimedShows(ps[n..])
    ensures ClaimedShows(ps)
  {
    assert ps == ps[..n] + ps[n..];
    OriginalAppend(ps[..n], ps[n..]);
    HitsAppend(ps[..n], ps[n..]);
    var ts := Lex(Original(ps[..n]));
    VisibleOfTokens(ts);
    VisibleAppend(TokenUnits(ts), ClaimedUnits(ps[n..]));
    HitsOfLits(ps[..n]);
  }

  lemma ClaimedHitStep(ps: seq<Piece>)
    requires ps != [] && LitRun(ps) == 0
    requires ClaimedShows(ps[1..])
    ensures ClaimedShows(ps)
  {
    VisibleAppend([PhraseUnit(ps[0].text)], ClaimedUnits(ps[1..]));
    assert ps == [ps[0]] + ps[1..];
    OriginalAppend([ps[0]], ps[1..]);
    HitsAppend([ps[0]], ps[1..]);
  }


  lemma ClaimHitStep(ps: seq<Piece>, ph: string, i: nat)
    requires ph != [] && i <= |ps| && PieceMatchAt(ps, ph, i)
    ensures Claim(ps, ph, i) == [Hit(Original(ps[i..i + |ph|]))] + Claim(ps, ph, i + |ph|)
  {
  }

  lemma ClaimLitStep(ps: seq<Piece>, ph: string, i: nat)
    requires ph != [] && i < |ps| && !PieceMatchAt(ps, ph, i)
    ensures Claim(ps, ph, i) == [ps[i]] + Claim(ps, ph, i + 1)
  {
  }

  /** Every hit of `r` was already a hit of `ps`, or matches `ph`. */
  predicate HitsFrom(r: seq<Piece>, ps: seq<Piece>, ph: string) {
    forall p :: p in r && p.Hit? ==> p in ps || EqIgnoreCase(p.text, ph)
  }

  lemma KeepAtHit(ps: seq<Piece>, ph: string, i: nat, rest: seq<Piece>)
    requires ph != [] && i <= |ps| && PieceMatchAt(ps, ph, i)
    requires HitsFrom(rest, ps[i + |ph|..], ph)
    ensures HitsFrom([Hit(Original(ps[i..i + |ph|]))] + rest, ps[i..], ph)
  {
    var j := i + |ph|;
    assert ps[i..] == ps[i..j] + ps[j..];
  }

  lemma KeepAtLit(ps: seq<Piece>, ph: string, i: nat, rest: seq<Piece>)
    requires i < |ps|
    requires HitsFrom(rest, ps[i + 1..], ph)
    ensures HitsFrom([ps[i]] + rest, ps[i..], ph)
  {
    assert ps[i..] == [ps[i]] + ps[i + 1..];
  }

  /** Claiming one phrase adds only hits that match it. */
  lemma {:induction false} ClaimKeeps(ps: seq<Piece>, ph: string, i: nat)
    requires ph != [] && i <= |ps|
    ensures HitsFrom(Claim(ps, ph, i), ps[i..], ph)
    decreases |ps| - i
  {
    if PieceMatchAt(ps, ph, i) {
      var j: nat := i + |ph|;
      ClaimKeeps(ps, ph, j);
      ClaimHitStep(ps, ph, i);
      KeepAtHit(ps, ph, i, Claim(ps, ph, j));
    } else if i < |ps| {
      var j: nat := i + 1;
      ClaimKeeps(ps, ph, j);
      ClaimLitStep(ps, ph, i);
      KeepAtLit(ps, ph, i, Claim(ps, ph, j));
    } else {
      ClaimEnd(ps, ph);
    }
  }

  /** Every claim is a match of one of the phrases: equal to it up to case. */
  lemma ClaimMatches(ps: seq<Piece>, ph: string)
    requires ph != []
    ensures forall t :: t in Hits(Claim(ps, ph, 0)) ==> t in Hits(ps) || EqIgnoreCase(t, ph)
  {
    ClaimKeeps(ps, ph, 0);
    assert ps[0..] == ps;
    forall t | t in Hits(Claim(ps, ph, 0)) ensures t in Hits(ps) || EqIgnoreCase(t, ph) {
      HitsHas(Claim(ps, ph, 0), t);
      HitsHas(ps, t);
    }
  }

  lemma {:induction false} ClaimAllMatches(ps: seq<Piece>, phrases: seq<string>)
    ensures forall t :: t in Hits(ClaimAll(ps, phrases)) ==> t in Hits(ps) || exists ph :: ph in phrases && EqIgnoreCase(t, ph)
    decreases |phrases|
  {
    if phrases != [] {
      if phrases[0] == [] {
        ClaimAllMatches(ps, phrases[1..]);
      } else {
        var q := Claim(ps, phrases[0], 0);
        ClaimAllMatches(q, phrases[1..]);
        ClaimMatches(ps, phrases[0]);
      }
      forall t | t in Hits(ClaimAll(ps, phrases)) && t !in Hits(ps)
        ensures exists ph :: ph in phrases && EqIgnoreCase(t, ph)
      {
        if phrases[0] != [] && EqIgnoreCase(t, phrases[0]) {
          assert phrases[0] in phrases;
        } else {
          var ph :| ph in phrases[1..] && EqIgnoreCase(t, ph);
          assert ph in phrases;
        }
      }
    }
  }

  /** Each phrase span carries a text that one of the first 500 indexed
      phrases matches case-insensitively. */
  lemma PhraseSpansMatchIndex(raw: string, phraseIndex: seq<string>)
    requires raw != ""
    ensures forall t :: t in PhraseTerms(Decode(WrapTextWithClicksFixed(Some(raw), phraseIndex))) ==>
      exists j :: 0 <= j < Min(500, |phraseIndex|) && EqIgnoreCase(t, phraseIndex[j])
  {
    var phrases := Take(phraseIndex, 500);
    ClaimAllMatches(Lits(raw), phrases);
    LitsOfLits(raw);
    OriginalOfLits(Lits(raw), raw);
    HitsOfLits(Lits(raw));
    forall t | t in PhraseTerms(Decode(WrapTextWithClicksFixed(Some(raw), phraseIndex)))
      ensures exists j :: 0 <= j < Min(500, |phraseIndex|) && EqIgnoreCase(t, phraseIndex[j])
    {
      var ph :| ph in phrases && EqIgnoreCase(t, ph);
      var j :| 0 <= j < |phrases| && phrases[j] == ph;
      assert phraseIndex[j] == ph;
    }
  }

  lemma {:induction false} LitRunOfLits(s: string)
    ensures LitRun(Lits(s)) == |s|
    decreases |s|
  {
    if s != [] {
      assert Lits(s)[1..] == Lits(s[1..]);
      LitRunOfLits(s[1..]);
    }
  }

  lemma RenderLits(s: string)
    requires s != []
    ensures RenderClaimed(Lits(s)) == WrapWords(s)
  {
    var ps := Lits(s);
    LitRunOfLits(s);
    OriginalLits(s);
    assert ps[..|s|] == ps;
    assert ps[|s|..] == [];
  }

  /** Without phrases the correction changes nothing: the output is the
      one the annotator as written produces. */
  lemma SameWithoutPhrases(raw: string)
    ensures WrapTextWithClicksFixed(Some(raw), []) == WrapTextWithClicks(Some(raw), [])
  {
    if raw != "" {
      assert Take<string>([], 500) == [];
      assert ClaimAll(Lits(raw), []) == Lits(raw);
      RenderLits(raw);
      PhraseSpansNeverEmitted(raw, []);
    }
  }

  /** `ps` is `s` with nothing claimed: one unclaimed piece per character. */
  predicate LitsOf(ps: seq<Piece>, s: string) {
    |ps| == |s| && forall k {:trigger ps[k]} :: 0 <= k < |s| ==> ps[k] == Lit(s[k])
  }

  lemma {:induction false} LitsOfLits(s: string)
    ensures LitsOf(Lits(s), s)
    decreases |s|
  {
    if s != [] {
      LitsOfLits(s[1..]);
      assert forall k :: 1 <= k < |s| ==> Lits(s)[k] == Lits(s[1..])[k - 1];
    }
  }

  lemma LitsOfSlice(ps: seq<Piece>, s: string, i: nat, j: nat)
    requires LitsOf(ps, s) && i <= j <= |s|
    ensures LitsOf(ps[i..j], s[i..j])
  {
    assert forall k :: 0 <= k < j - i ==> ps[i..j][k] == ps[i + k];
  }

  lemma {:induction false} OriginalOfLits(ps: seq<Piece>, s: string)
    requires LitsOf(ps, s)
    ensures AllLit(ps) && Original(ps) == s
    decreases |s|
  {
    if s != [] {
      LitsOfSlice(ps, s, 1, |s|);
      OriginalOfLits(ps[1..], s[1..]);
      assert [s[0]] + s[1..] == s;
    }
  }

  /** Pieces and text see the same `\b` at position `i`. */
  predicate SameBoundary(ps: seq<Piece>, s: string, i: nat)
    requires i <= |ps| && i <= |s|
  {
    PieceBoundary(ps, i) == Boundary(s, i)
  }

  lemma BoundaryAgrees(ps: seq<Piece>, s: string, i: nat)
    requires LitsOf(ps, s) && i <= |s|
    ensures SameBoundary(ps, s, i)
  {
  }

  /** Pieces `i` to `j` are unclaimed characters spelling `s[i..j]`. */
  predicate Spells(ps: seq<Piece>, s: string, i: nat, j: nat)
    requires i <= j <= |ps| && j <= |s|
  {
    AllLit(ps[i..j]) && Original(ps[i..j]) == s[i..j]
  }

  lemma SliceAgrees(ps: seq<Piece>, s: string, i: nat, j: nat)
    requires LitsOf(ps, s) && i <= j <= |s|
    ensures Spells(ps, s, i, j)
  {
    LitsOfSlice(ps, s, i, j);
    OriginalOfLits(ps[i..j], s[i..j]);
  }

  /** Matching over pieces agrees with matching over text wherever the
      pieces spell the text and see the same boundaries. */
  lemma MatchAgreesWith(ps: seq<Piece>, s: string, ph: string, i: nat)
    requires |ps| == |s| && i + |ph| <= |s|
    requires Spells(ps, s, i, i + |ph|)
    requires SameBoundary(ps, s, i) && SameBoundary(ps, s, i + |ph|)
    ensures PieceMatchAt(ps, ph, i) == MatchAt(s, ph, i)
  {
  }

  lemma MatchAgrees(ps: seq<Piece>, s: string, ph: string, i: nat)
    requires LitsOf(ps, s) && i <= |s|
    ensures PieceMatchAt(ps, ph, i) == MatchAt(s, ph, i)
  {
    if i + |ph| <= |s| {
      SliceAgrees(ps, s, i, i + |ph|);
      BoundaryAgrees(ps, s, i);
      BoundaryAgrees(ps, s, i + |ph|);
      MatchAgreesWith(ps, s, ph, i);
    }
  }

  lemma ScanEnd(s: string, ph: string)
    requires ph != []
    ensures Scan(s, ph, |s|) == []
  {
  }

  lemma ClaimEnd(ps: seq<Piece>, ph: string)
    requires ph != []
    ensures Claim(ps, ph, |ps|) == []
  {
  }

  lemma AgreeAtHit(ps: seq<Piece>, s: string, ph: string, i: nat)
    requires ph != [] && |ps| == |s| && i + |ph| <= |s|
    requires PieceMatchAt(ps, ph, i) && MatchAt(s, ph, i)
    requires Spells(ps, s, i, i + |ph|)
    requires Claim(ps, ph, i + |ph|) == Scan(s, ph, i + |ph|)
    ensures Claim(ps, ph, i) == Scan(s, ph, i)
  {
    ClaimHitStep(ps, ph, i);
    ScanHitStep(s, ph, i);
    HitConsEq(Original(ps[i..i + |ph|]), s[i..i + |ph|], Claim(ps, ph, i + |ph|), Scan(s, ph, i + |ph|));
  }

  lemma HitConsEq(a: string, b: string, x: seq<Piece>, y: seq<Piece>)
    requires a == b && x == y
    ensures [Hit(a)] + x == [Hit(b)] + y
  {
  }

  lemma ConsEq(a: Piece, b: Piece, x: seq<Piece>, y: seq<Piece>)
    requires a == b && x == y
    ensures [a] + x == [b] + y
  {
  }

  lemma AgreeAtLit(ps: seq<Piece>, s: string, ph: string, i: nat)
    requires ph != [] && |ps| == |s| && i < |s| && ps[i] == Lit(s[i])
    requires !PieceMatchAt(ps, ph, i) && !MatchAt(s, ph, i)
    requires Claim(ps, ph, i + 1) == Scan(s, ph, i + 1)
    ensures Claim(ps, ph, i) == Scan(s, ph, i)
  {
    ClaimLitStep(ps, ph, i);
    ScanLitStep(s, ph, i);
    ConsEq(ps[i], Lit(s[i]), Claim(ps, ph, i + 1), Scan(s, ph, i + 1));
  }

  lemma StepAtHit(s: string, ph: string, i: nat)
    requires ph != [] && i <= |s| && MatchAt(s, ph, i)
    requires Claim(Lits(s), ph, i + |ph|) == Scan(s, ph, i + |ph|)
    ensures Claim(Lits(s), ph, i) == Scan(s, ph, i)
  {
    var ps := Lits(s);
    LitsOfLits(s);
    MatchAgrees(ps, s, ph, i);
    SliceAgrees(ps, s, i, i + |ph|);
    AgreeAtHit(ps, s, ph, i);
  }

  lemma StepAtLit(s: string, ph: string, i: nat)
    requires ph != [] && i < |s| && !MatchAt(s, ph, i)
    requires Claim(Lits(s), ph, i + 1) == Scan(s, ph, i + 1)
    ensures Claim(Lits(s), ph, i) == Scan(s, ph, i)
  {
    var ps := Lits(s);
    LitsOfLits(s);
    MatchAgrees(ps, s, ph, i);
    AgreeAtLit(ps, s, ph, i);
  }

  lemma StepAtEnd(s: string, ph: string)
    requires ph != []
    ensures Claim(Lits(s), ph, |s|) == Scan(s, ph, |s|)
  {
    ClaimEnd(Lits(s), ph);
    ScanEnd(s, ph);
  }

  /** On plain text the corrected claim pass finds exactly the matches of
      the regular expression app.js:187 builds for the phrase. */
  lemma {:induction false} ClaimAgreesWithScan(s: string, ph: string, i: nat)
    requires ph != [] && i <= |s|
    ensures Claim(Lits(s), ph, i) == Scan(s, ph, i)
    decreases |s| - i
  {
    if MatchAt(s, ph, i) {
      var n: nat := i + |ph|;
      ClaimAgreesWithScan(s, ph, n);
      StepAtHit(s, ph, i);
    } else if i < |s| {
      var n: nat := i + 1;
      ClaimAgreesWithScan(s, ph, n);
      StepAtLit(s, ph, i);
    } else {
      StepAtEnd(s, ph);
    }
  }

  lemma ClaimExample()
    ensures Claim(Lits("and so on"), "so on", 0) == [Lit('a'), Lit('n'), Lit('d'), Lit(' '), Hit("so on")]
  {
    ScanExample();
    ClaimAgreesWithScan("and so on", "so on", 0);
  }

  lemma ClaimAllExample()
    ensures ClaimAll(Lits("and so on"), ["so on"]) == [Lit('a'), Lit('n'), Lit('d'), Lit(' '), Hit("so on")]
  {
    ClaimExample();
    ClaimAllOne(Lits("and so on"), "so on", [Lit('a'), Lit('n'), Lit('d'), Lit(' '), Hit("so on")]);
  }

  lemma ClaimAllOne(ps: seq<Piece>, ph: string, r: seq<Piece>)
    requires ph != [] && Claim(ps, ph, 0) == r
    ensures ClaimAll(ps, [ph]) == r
  {
    assert [ph][1..] == [];
  }


  /** On the input where the annotator as written shows `and __PH_0__`, the
      corrected one shows `and so on` with `so on` as a phrase span. */
  lemma PhraseSpanExample()
    ensures Visible(Decode(WrapTextWithClicksFixed(Some("and so on"), ["so on"]))) == "and so on"
    ensures PhraseTerms(Decode(WrapTextWithClicksFixed(Some("and so on"), ["so on"]))) == ["so on"]
  {
    var q := [Lit('a'), Lit('n'), Lit('d'), Lit(' '), Hit("so on")];
    assert Take(["so on"], 500) == ["so on"];
    ClaimAllExample();
    ExampleHits();
    FixedOutcome("and so on", ["so on"], q);
  }

  lemma ExampleHits()
    ensures Hits([Lit('a'), Lit('n'), Lit('d'), Lit(' '), Hit("so on")]) == ["so on"]
  {
  }

  lemma FixedOutcome(raw: string, phraseIndex: seq<string>, q: seq<Piece>)
    requires raw != [] && ClaimAll(Lits(raw), Take(phraseIndex, 500)) == q
    ensures Visible(Decode(WrapTextWithClicksFixed(Some(raw), phraseIndex))) == raw
    ensures PhraseTerms(Decode(WrapTextWithClicksFixed(Some(raw), phraseIndex))) == Hits(q)
  {
  }
}

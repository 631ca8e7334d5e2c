/** What `loadSubject` (app.js:96-126) derives from a subject's word list:
    the word index keyed by normalised term and the phrase index the
    annotator tries, plus the glossary lookup of app.js:417-419 that reads
    the word index back, falling back to the form without a trailing `'s`. */
module Dataset {
  import opened Common
  import opened Text

  /** An entry of `words.json`; a missing string field reads as "". */
  datatype Word = Word(term: string, zh: string, hint: string, collocations: seq<string>)

  /** An entry of `instructions.json`; a missing string field reads as "". */
  datatype Card = Card(en: string, zh: string)

  datatype Subject = Subject(
    instructions: seq<Card>,
    words: seq<Word>,
    wordIndex: map<string, Word>,
    phraseIndex: seq<string>)

  /** A word list entry takes part only when its term is a non-empty string (app.js:108). */
  predicate HasTerm(w: Word) {
    w.term != ""
  }

  /** Collocations in order, each trimmed and lower-cased; empty strings are skipped (app.js:112-116). */
  function CollocationPhrases(cs: seq<string>): (r: seq<string>)
    ensures forall p :: p in r <==> exists c :: c in cs && c != "" && p == Normalize(c)
    decreases |cs|
  {
    if cs == [] then []
    else
      var rest := CollocationPhrases(cs[1..]);
      assert cs == [cs[0]] + cs[1..];
      (if cs[0] != "" then [Normalize(cs[0])] else []) + rest
  }

  /** `phraseList` after the loop of app.js:107-117: every named term, each
      followed by its collocations, all normalised. */
  function PhraseList(words: seq<Word>): (r: seq<string>)
    ensures forall p :: p in r ==> Trimmed(p) && IsLowerCase(p)
    ensures forall p :: p in r <==> exists w :: w in words && HasTerm(w) && IsPhraseOf(p, w)
    decreases |words|
  {
    if words == [] then []
    else
      var w := words[0];
      var rest := PhraseList(words[1..]);
      assert words == [w] + words[1..];
      (if HasTerm(w) then [Normalize(w.term)] + CollocationPhrases(w.collocations) else []) + rest
  }

  /** `p` is contributed by word `w`: its normalised term or one of its
      non-empty collocations, normalised. */
  predicate IsPhraseOf(p: string, w: Word) {
    p == Normalize(w.term) || exists c :: c in w.collocations && c != "" && p == Normalize(c)
  }

  /** The position of the first `x` in `xs`, or `|xs|` when there is none. */
  function FirstIndex(xs: seq<string>, x: string): (i: nat)
    ensures i <= |xs| && (i < |xs| <==> x in xs)
    ensures i < |xs| ==> xs[i] == x
    ensures x !in xs[..i]
    decreases |xs|
  {
    if xs == [] then 0
    else if xs[0] == x then 0
    else
      var j := FirstIndex(xs[1..], x);
      assert xs[..j + 1] == [xs[0]] + xs[1..][..j];
      assert x in xs ==> x in xs[1..] by {
        assert xs == [xs[0]] + xs[1..];
      }
      j + 1
  }

  lemma FirstIndexPrefix(a: seq<string>, b: seq<string>, y: string)
    requires y in a
    ensures FirstIndex(a + b, y) == FirstIndex(a, y)
  {
    var i := FirstIndex(a, y);
    assert (a + b)[i] == y;
    assert (a + b)[..i] == a[..i];
  }

  lemma FirstIndexAfter(a: seq<string>, y: string)
    requires y !in a
    ensures FirstIndex(a + [y], y) == |a|
  {
    assert (a + [y])[|a|] == y;
    assert forall j :: 0 <= j < |a| ==> (a + [y])[j] == a[j];
  }

  /** The elements of `r` appear in the order of their first occurrence in `xs`. */
  predicate InFirstOrder(r: seq<string>, xs: seq<string>) {
    forall i, j :: 0 <= i < j < |r| ==> FirstIndex(xs, r[i]) < FirstIndex(xs, r[j])
  }

  /** One more element at the end of the input keeps the order of first occurrences. */
  lemma FirstOrderSnoc(d: seq<string>, init: seq<string>, x: string)
    requires forall y :: y in d <==> y in init
    requires InFirstOrder(d, init)
    ensures InFirstOrder(if x in d then d else d + [x], init + [x])
  {
    var xs := init + [x];
    forall y | y in d ensures FirstIndex(xs, y) == FirstIndex(init, y) {
      FirstIndexPrefix(init, [x], y);
    }
    if x !in d {
      var r := d + [x];
      if x in init {
        FirstIndexPrefix(init, [x], x);
      } else {
        FirstIndexAfter(init, x);
      }
      forall i, j | 0 <= i < j < |r| ensures FirstIndex(xs, r[i]) < FirstIndex(xs, r[j]) {
        assert r[i] == d[i] && r[i] in d;
        if j < |d| {
          assert r[j] == d[j] && r[j] in d;
        } else {
          assert r[j] == x;
        }
      }
    }
  }

  /** `Array.from(new Set(xs))`: a `Set` keeps each value once, in the order
      it was first inserted. */
  function Dedup(xs: seq<string>): (r: seq<string>)
    ensures Distinct(r)
    ensures forall x :: x in r <==> x in xs
    ensures InFirstOrder(r, xs)
    decreases |xs|
  {
    if xs == [] then []
    else
      var init := xs[..|xs| - 1];
      var d := Dedup(init);
      var x := xs[|xs| - 1];
      assert xs == init + [x];
      assert forall y :: y in xs <==> y in init || y == x;
      FirstOrderSnoc(d, init, x);
      if x in d then d else d + [x]
  }

  /** The filter of app.js:119: at least two pieces when split on whitespace runs. */
  predicate IsMultiToken(p: string) {
    SplitCount(p) >= 2
  }

  predicate SortedByLength(xs: seq<string>) {
    forall i, j :: 0 <= i < j < |xs| ==> JsLength(xs[i]) >= JsLength(xs[j])
  }

  /** Places `x` before the first element that is no longer than it. */
  function InsertByLength(x: string, s: seq<string>): (r: seq<string>)
    requires SortedByLength(s)
    ensures multiset(r) == multiset(s) + multiset{x}
    ensures SortedByLength(r)
    decreases |s|
  {
    if s == [] || JsLength(s[0]) <= JsLength(x) then [x] + s
    else
      var t := InsertByLength(x, s[1..]);
      assert s == [s[0]] + s[1..];
      NoLongerThan(s[1..], t, x, JsLength(s[0]));
      SortedCons(s[0], t);
      [s[0]] + t
  }

  lemma SortedCons(h: string, t: seq<string>)
    requires SortedByLength(t) && forall k :: 0 <= k < |t| ==> JsLength(t[k]) <= JsLength(h)
    ensures SortedByLength([h] + t)
  {
    var r := [h] + t;
    forall i, j | 0 <= i < j < |r| ensures JsLength(r[i]) >= JsLength(r[j]) {
      assert r[j] == t[j - 1];
      if i > 0 {
        assert r[i] == t[i - 1];
      }
    }
  }

  /** A permutation of `s` with `x` added is no longer than `bound` wherever `s` and `x` are not. */
  lemma NoLongerThan(s: seq<string>, t: seq<string>, x: string, bound: nat)
    requires multiset(t) == multiset(s) + multiset{x}
    requires JsLength(x) <= bound && forall k :: 0 <= k < |s| ==> JsLength(s[k]) <= bound
    ensures forall k :: 0 <= k < |t| ==> JsLength(t[k]) <= bound
  {
    forall k | 0 <= k < |t| ensures JsLength(t[k]) <= bound {
      assert t[k] in multiset(t);
      if t[k] != x {
        assert t[k] in s;
      }
    }
  }

  /** The elements of `xs` of length `n`, in order. */
  function OfLength(xs: seq<string>, n: nat): seq<string>
    decreases |xs|
  {
    if xs == [] then [] else (if JsLength(xs[0]) == n then [xs[0]] else []) + OfLength(xs[1..], n)
  }

  /** Inserting `x` puts it in front of every element of its own length. */
  lemma {:induction false} InsertStable(x: string, s: seq<string>, n: nat)
    requires SortedByLength(s)
    ensures OfLength(InsertByLength(x, s), n) == (if JsLength(x) == n then [x] else []) + OfLength(s, n)
    decreases |s|
  {
    if s == [] || JsLength(s[0]) <= JsLength(x) {
      OfLengthCons(x, s, n);
    } else {
      var t := InsertByLength(x, s[1..]);
      var a := if JsLength(s[0]) == n then [s[0]] else [];
      var b := if JsLength(x) == n then [x] else [];
      var o := OfLength(s[1..], n);
      InsertStable(x, s[1..], n);
      assert InsertByLength(x, s) == [s[0]] + t;
      OfLengthCons(s[0], t, n);
      SwapEmpty(a, b, o);
    }
  }

  lemma SwapEmpty<T>(a: seq<T>, b: seq<T>, o: seq<T>)
    requires a == [] || b == []
    ensures a + (b + o) == b + (a + o)
  {
  }

  lemma OfLengthCons(y: string, rest: seq<string>, n: nat)
    ensures OfLength([y] + rest, n) == (if JsLength(y) == n then [y] else []) + OfLength(rest, n)
  {
    assert ([y] + rest)[0] == y && ([y] + rest)[1..] == rest;
  }

  /** `sort((a, b) => b.length - a.length)`, lengths in UTF-16 code units:
      longest first, and, as `Array.prototype.sort` is stable, phrases of
      equal length keep their order. */
  function SortByLength(xs: seq<string>): (r: seq<string>)
    ensures multiset(r) == multiset(xs)
    ensures SortedByLength(r)
    ensures forall n :: OfLength(r, n) == OfLength(xs, n)
    decreases |xs|
  {
    if xs == [] then []
    else
      assert xs == [xs[0]] + xs[1..];
      var t := SortByLength(xs[1..]);
      var r := InsertByLength(xs[0], t);
      assert forall n :: OfLength(r, n) == OfLength(xs, n) by {
        forall n ensures OfLength(r, n) == OfLength(xs, n) {
          InsertStable(xs[0], t, n);
        }
      }
      r
  }

  /** Lengths are counted as JavaScript counts them: a phrase holding an
      emoji ties with a five-letter one and keeps its place. */
  lemma SortExample()
    ensures SortByLength(["ab \U{1F600}", "abc d"]) == ["ab \U{1F600}", "abc d"]
  {
    JsLengthExample();
    assert SortByLength(["abc d"]) == ["abc d"];
  }

  /** The phrase index of app.js:105-121: distinct phrases, longest first. */
  function BuildPhraseIndex(words: seq<Word>): (r: seq<string>)
    ensures Distinct(r)
    ensures SortedByLength(r)
    ensures forall p :: p in r <==> p in PhraseList(words) && IsMultiToken(p)
  {
    var uniq := Filter(Dedup(PhraseList(words)), (p: string) => IsMultiToken(p));
    FilterDistinct(Dedup(PhraseList(words)), (p: string) => IsMultiToken(p));
    var r := SortByLength(uniq);
    PermutationKeeps(uniq, r);
    r
  }

  /** Every indexed phrase is trimmed, lower-case and holds whitespace
      between its first and last characters. */
  lemma PhraseIndexShape(words: seq<Word>)
    ensures forall p :: p in BuildPhraseIndex(words) ==> Trimmed(p) && IsLowerCase(p) && IsMultiToken(p) && HasSpace(p)
  {
    forall p | p in BuildPhraseIndex(words)
      ensures Trimmed(p) && IsLowerCase(p) && IsMultiToken(p) && HasSpace(p)
    {
      SplitCountOfTrimmed(p);
    }
  }

  /** A phrase is indexed exactly when it has two or more whitespace-separated
      pieces and is the term or a collocation of a named word. */
  lemma PhraseIndexMembers(words: seq<Word>)
    ensures forall p :: p in BuildPhraseIndex(words) <==>
      IsMultiToken(p) && exists w :: w in words && HasTerm(w) && IsPhraseOf(p, w)
  {
  }

  /** A permutation has the same elements and keeps them distinct. */
  lemma PermutationKeeps<T>(a: seq<T>, b: seq<T>)
    requires multiset(a) == multiset(b)
    ensures forall x :: x in a <==> x in b
    ensures Distinct(a) ==> Distinct(b)
  {
    DistinctMultiset(a);
    DistinctMultiset(b);
    assert forall x :: x in a <==> x in multiset(a);
    assert forall x :: x in b <==> x in multiset(b);
  }

  /** The key a word is indexed under. */
  function Key(w: Word): string {
    Normalize(w.term)
  }

  /** Named words stored under `key`, a later word replacing an earlier
      one under the same key. */
  function IndexBy(words: seq<Word>, key: Word -> string): (m: map<string, Word>)
    ensures forall k :: k in m ==> HasTerm(m[k]) && key(m[k]) == k && m[k] in words
    decreases |words|
  {
    if words == [] then map[]
    else
      var init := words[..|words| - 1];
      var m := IndexBy(init, key);
      var w := words[|words| - 1];
      assert forall x :: x in init ==> x in words;
      if HasTerm(w) then m[key(w) := w] else m
  }

  /** The word index of app.js:105-111: keys are normalised terms. */
  function BuildWordIndex(words: seq<Word>): (m: map<string, Word>)
    ensures forall k :: k in m ==> HasTerm(m[k]) && Key(m[k]) == k && m[k] in words
  {
    IndexBy(words, Key)
  }

  /** Some named word in `words` carries key `k`. */
  predicate KeyedBy(words: seq<Word>, key: Word -> string, k: string) {
    exists i :: 0 <= i < |words| && HasTerm(words[i]) && key(words[i]) == k
  }

  lemma {:induction false} IndexByKeys(words: seq<Word>, key: Word -> string, k: string)
    ensures k in IndexBy(words, key) <==> KeyedBy(words, key, k)
    decreases |words|
  {
    if words != [] {
      var n := |words| - 1;
      var init, w := words[..n], words[n];
      IndexByKeys(init, key, k);
      if KeyedBy(init, key, k) {
        var i :| 0 <= i < |init| && HasTerm(init[i]) && key(init[i]) == k;
        assert words[i] == init[i];
      }
      if KeyedBy(words, key, k) {
        var i :| 0 <= i < |words| && HasTerm(words[i]) && key(words[i]) == k;
        if i < n {
          assert init[i] == words[i];
        }
      }
    }
  }

  /** A key is indexed exactly when some named word carries it. */
  lemma WordIndexKeys(words: seq<Word>, k: string)
    ensures k in BuildWordIndex(words) <==> exists i :: 0 <= i < |words| && HasTerm(words[i]) && Key(words[i]) == k
  {
    IndexByKeys(words, Key, k);
  }

  lemma {:induction false} IndexByLastWins(words: seq<Word>, key: Word -> string, i: nat)
    requires i < |words| && HasTerm(words[i])
    requires forall j :: i < j < |words| && HasTerm(words[j]) ==> key(words[j]) != key(words[i])
    ensures key(words[i]) in IndexBy(words, key)
    ensures IndexBy(words, key)[key(words[i])] == words[i]
    decreases |words|
  {
    var n := |words| - 1;
    var init := words[..n];
    if i < n {
      forall j | i < j < |init| && HasTerm(init[j]) ensures key(init[j]) != key(init[i]) {
        assert init[j] == words[j] && init[i] == words[i];
      }
      IndexByLastWins(init, key, i);
      assert init[i] == words[i];
    }
  }

  /** Of several words with the same key, the index keeps the last one. */
  lemma WordIndexLastWins(words: seq<Word>, i: nat)
    requires i < |words| && HasTerm(words[i]) && LastWithKey(words, i)
    ensures Key(words[i]) in BuildWordIndex(words)
    ensures BuildWordIndex(words)[Key(words[i])] == words[i]
  {
    IndexByLastWins(words, Key, i);
  }

  /** No word after position `i` carries the same key. */
  predicate LastWithKey(words: seq<Word>, i: int)
    requires 0 <= i < |words|
  {
    forall j :: i < j < |words| && HasTerm(words[j]) ==> Key(words[j]) != Key(words[i])
  }

  function LoadSubject(instructions: seq<Card>, words: seq<Word>): Subject {
    Subject(instructions, words, BuildWordIndex(words), BuildPhraseIndex(words))
  }

  /** `.replace(/'s$/, "")`. */
  function StripPossessive(s: string): (r: string)
    ensures |s| >= 2 && s[|s| - 2..] == "'s" ==> r + "'s" == s
    ensures !(|s| >= 2 && s[|s| - 2..] == "'s") ==> r == s
  {
    if |s| >= 2 && s[|s| - 2..] == "'s" then s[..|s| - 2] else s
  }

  /** The glossary lookup of app.js:415-420: the trimmed, lower-cased term,
      else that form without a trailing `'s`. */
  function LookupTerm(index: map<string, Word>, term: string): (r: Option<Word>)
    ensures Normalize(term) in index ==> r == Some(index[Normalize(term)])
    ensures Normalize(term) !in index ==>
      (r.Some? <==> StripPossessive(Normalize(term)) in index) &&
      (r.Some? ==> r.value == index[StripPossessive(Normalize(term))])
  {
    var t := Trim(term);
    var lo := Lower(t);
    if lo in index then Some(index[lo])
    else
      var base := StripPossessive(lo);
      if base in index then Some(index[base]) else None
  }

  /** A possessive of an indexed key finds that key's word when the
      possessive form is not a key of its own. */
  lemma PossessiveFindsBase(index: map<string, Word>, w: string)
    requires w != "" && Trimmed(w) && IsLowerCase(w)
    requires w in index && w + "'s" !in index
    ensures LookupTerm(index, w + "'s") == Some(index[w])
  {
    var p := w + "'s";
    assert Trimmed(p);
    TrimOfTrimmed(p);
    assert IsLowerCase(p);
    LowerIdempotent(p);
    assert Normalize(p) == p;
    assert p[|p| - 2..] == "'s";
    assert StripPossessive(p) == w;
  }
}

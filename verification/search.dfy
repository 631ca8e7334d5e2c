/** The two search boxes: the subject's word bank (app.js:584-590), which
    lists at most 200 hits, and the word list (app.js:737-744), which lists
    at most 500. The query is trimmed and lower-cased; a row matches when the
    query is empty, when its lower-cased term contains the query, or when its
    translation contains the query as typed. */
module Search {
  import opened Common
  import opened Text
  import opened Dataset
  import opened Wordbook

  const BankLimit: nat := 200
  const WordbookLimit: nat := 500

  /** The row test shared by both boxes, on the normalised query. */
  predicate RowMatches(query: string, term: string, zh: string) {
    query == "" || Contains(Lower(term), query) || Contains(zh, query)
  }

  predicate WordMatches(query: string, w: Word) {
    RowMatches(query, w.term, w.zh)
  }

  predicate EntryMatches(query: string, e: Entry) {
    RowMatches(query, e.term, e.zh)
  }

  /** The words of the bank that match the normalised query, in order. */
  function BankHits(words: seq<Word>, query: string): seq<Word> {
    Filter(words, w => WordMatches(query, w))
  }

  /** The entries of the list that match the normalised query, in order. */
  function EntryHits(list: seq<Entry>, query: string): seq<Entry> {
    Filter(list, e => EntryMatches(query, e))
  }

  /** `draw(q)` of the word bank tab: the first 200 matching words, in the
      bank's order; they are all the matches in some leading part of the
      bank, so no match is skipped before the last one shown. */
  function SearchBank(words: seq<Word>, q: string): (r: seq<Word>)
    ensures |r| == Min(BankLimit, |BankHits(words, Normalize(q))|)
    ensures exists k :: 0 <= k <= |words| && r == BankHits(words[..k], Normalize(q))
    ensures forall w :: w in r ==> w in words && WordMatches(Normalize(q), w)
  {
    var query := Normalize(q);
    var hits := BankHits(words, query);
    var r := Take(hits, BankLimit);
    FilterPrefix(words, w => WordMatches(query, w), |r|);
    assert forall j :: 0 <= j < |r| ==> r[j] in hits;
    r
  }

  /** `draw(q)` of the word list tab: the first 500 matching entries, in
      stored order, with no match skipped before the last one shown. */
  function SearchWordbook(list: seq<Entry>, q: string): (r: seq<Entry>)
    ensures |r| == Min(WordbookLimit, |EntryHits(list, Normalize(q))|)
    ensures exists k :: 0 <= k <= |list| && r == EntryHits(list[..k], Normalize(q))
    ensures forall e :: e in r ==> e in list && EntryMatches(Normalize(q), e)
  {
    var query := Normalize(q);
    var hits := EntryHits(list, query);
    var r := Take(hits, WordbookLimit);
    FilterPrefix(list, e => EntryMatches(query, e), |r|);
    assert forall j :: 0 <= j < |r| ==> r[j] in hits;
    r
  }

  /** When fewer rows match than the box shows, every matching row is listed. */
  lemma BankShowsAllFewHits(words: seq<Word>, q: string)
    requires |BankHits(words, Normalize(q))| <= BankLimit
    ensures forall w :: w in words && WordMatches(Normalize(q), w) ==> w in SearchBank(words, q)
  {
  }

  lemma WordbookShowsAllFewHits(list: seq<Entry>, q: string)
    requires |EntryHits(list, Normalize(q))| <= WordbookLimit
    ensures forall e :: e in list && EntryMatches(Normalize(q), e) ==> e in SearchWordbook(list, q)
  {
  }

  /** A blank query lists the first rows as stored. */
  lemma BlankQueryListsFirst(words: seq<Word>, list: seq<Entry>, q: string)
    requires Trim(q) == ""
    ensures SearchBank(words, q) == Take(words, BankLimit)
    ensures SearchWordbook(list, q) == Take(list, WordbookLimit)
  {
    assert Normalize(q) == "";
    FilterAll(words, w => WordMatches(Normalize(q), w));
    FilterAll(list, e => EntryMatches(Normalize(q), e));
  }

  /** Padding and letter case of the query do not change the result. */
  lemma QueryNormalized(words: seq<Word>, list: seq<Entry>, q: string)
    ensures SearchBank(words, Normalize(q)) == SearchBank(words, q)
    ensures SearchWordbook(list, Normalize(q)) == SearchWordbook(list, q)
  {
    NormalizeIdempotent(q);
  }

  /** A word whose term holds the query, in any letter case, matches it. */
  lemma TermHitMatches(query: string, term: string, zh: string, i: nat)
    requires IsLowerCase(query)
    requires i + |query| <= |term| && EqIgnoreCase(term[i..i + |query|], query)
    ensures RowMatches(query, term, zh)
  {
    EqIgnoreCaseLower(term[i..i + |query|], query);
    LowerIdempotent(query);
    var lo := Lower(term);
    assert lo[i..i + |query|] == Lower(term[i..i + |query|]);
    assert OccursAt(query, lo, i);
  }
}

/** The small numeric rules around the reader: the font-size buttons
    (app.js:45-54), the card index clamps of the reading view
    (app.js:429, app.js:466-473) and the freshness test of the dictionary
    cache (app.js:250-258). */
module Controls {
  import opened Common
  import opened Text

  // ---------------------------------------------------------------------
  // Font size

  const FontMin: int := 15
  const FontMax: int := 26

  predicate FontInRange(fs: int) {
    FontMin <= fs <= FontMax
  }

  /** The `A+` button. */
  function FontPlus(fs: int): (r: int)
    ensures r <= FontMax
    ensures FontInRange(fs) ==> FontInRange(r)
    ensures fs < FontMax ==> r == fs + 1
    ensures fs >= FontMax ==> r == FontMax
  {
    Min(FontMax, fs + 1)
  }

  /** The `A-` button. */
  function FontMinus(fs: int): (r: int)
    ensures r >= FontMin
    ensures FontInRange(fs) ==> FontInRange(r)
    ensures fs > FontMin ==> r == fs - 1
    ensures fs <= FontMin ==> r == FontMin
  {
    Max(FontMin, fs - 1)
  }

  /** Inside the range, one step up and one step down cancel. */
  lemma FontStepsCancel(fs: int)
    ensures FontMin <= fs < FontMax ==> FontMinus(FontPlus(fs)) == fs
    ensures FontMin < fs <= FontMax ==> FontPlus(FontMinus(fs)) == fs
  {
  }

  /** Any run of presses keeps an in-range size in range. */
  lemma {:induction false} FontPressesStayInRange(fs: int, presses: seq<bool>)
    requires FontInRange(fs)
    ensures FontInRange(ApplyPresses(fs, presses))
    decreases |presses|
  {
    if presses != [] {
      var next := if presses[0] then FontPlus(fs) else FontMinus(fs);
      FontPressesStayInRange(next, presses[1..]);
    }
  }

  /** `true` is `A+`, `false` is `A-`. */
  function ApplyPresses(fs: int, presses: seq<bool>): int
    decreases |presses|
  {
    if presses == [] then fs
    else ApplyPresses(if presses[0] then FontPlus(fs) else FontMinus(fs), presses[1..])
  }

  // ---------------------------------------------------------------------
  // Card index

  /** The index the reading view shows, from the stored one (`undefined`
      and `0` both read as `0`), over a deck of `len` cards. */
  function ShownIndex(len: nat, stored: Option<int>): (i: int)
    ensures len > 0 ==> 0 <= i < len
    ensures len == 0 ==> i == 0
    ensures len > 0 && stored.Some? && 0 <= stored.value < len ==> i == stored.value
    ensures stored.None? ==> i == 0
  {
    var s := if stored.Some? then stored.value else 0;
    Max(0, Min(len - 1, s))
  }

  /** Clamping is idempotent: storing the shown index shows it again. */
  lemma ShownIndexIdempotent(len: nat, stored: Option<int>)
    ensures ShownIndex(len, Some(ShownIndex(len, stored))) == ShownIndex(len, stored)
  {
  }

  /** The previous-card button. */
  function PrevIndex(i: int): (r: int)
    ensures i > 0 ==> r == i - 1
    ensures i <= 0 ==> r == 0
  {
    Max(0, i - 1)
  }

  /** The next-card button over a deck of `len` cards. */
  function NextIndex(len: nat, i: int): (r: int)
    ensures i < len - 1 ==> r == i + 1
    ensures i >= len - 1 ==> r == len - 1
  {
    Min(len - 1, i + 1)
  }

  /** On a non-empty deck the buttons keep a shown index on the deck, and
      a step forward then back returns to the card, short of the last one. */
  lemma StepsStayOnDeck(len: nat, i: int)
    requires len > 0 && 0 <= i < len
    ensures 0 <= PrevIndex(i) < len && 0 <= NextIndex(len, i) < len
    ensures i < len - 1 ==> PrevIndex(NextIndex(len, i)) == i
    ensures i > 0 ==> NextIndex(len, PrevIndex(i)) == i
  {
  }

  /** The random-card button. */
  function RandomCard(len: nat, r: real): (i: nat)
    requires IsDraw(r)
    ensures len > 0 ==> i < len
  {
    RandomIndex(r, len)
  }

  /** Every card can come up. */
  lemma EveryCardReachable(len: nat, i: nat)
    requires i < len
    ensures exists r :: IsDraw(r) && RandomCard(len, r) == i
  {
    DrawFor(i, len);
    var r := i as real / len as real;
    assert IsDraw(r) && RandomCard(len, r) == i;
  }

  // ---------------------------------------------------------------------
  // Dictionary cache

  /** Fourteen days, in milliseconds. */
  const CacheTtl: int := 1000 * 60 * 60 * 24 * 14

  /** A cached entry is served when its timestamp is set (non-zero) and
      younger than fourteen days. */
  predicate CacheFresh(ts: int, now: int) {
    ts != 0 && now - ts < CacheTtl
  }

  /** What `lookupDictionary` does before going to the network. */
  datatype DictStep = Blank | Cached(key: string) | Fetch(key: string)

  /** The cache is keyed by the trimmed, lower-cased term; a blank term
      does nothing; a stored entry without a timestamp counts as stale. */
  function DictLookup(cache: map<string, int>, term: string, now: int): (r: DictStep)
    ensures r == Blank <==> Normalize(term) == ""
    ensures r.Cached? ==> r.key == Normalize(term) && r.key in cache && CacheFresh(cache[r.key], now)
    ensures r.Fetch? ==> r.key == Normalize(term) && (r.key !in cache || !CacheFresh(cache[r.key], now))
  {
    var t := Normalize(term);
    if t == "" then Blank
    else if t in cache && CacheFresh(cache[t], now) then Cached(t)
    else Fetch(t)
  }

  /** Freshness only runs out: fresh now means fresh at every earlier
      moment, and an entry is stale from exactly fourteen days on. */
  lemma CacheExpiry(ts: int, now: int, earlier: int)
    requires ts != 0 && earlier <= now
    ensures CacheFresh(ts, now) ==> CacheFresh(ts, earlier)
    ensures CacheFresh(ts, ts + CacheTtl - 1) && !CacheFresh(ts, ts + CacheTtl)
  {
  }

  /** A term differing only in padding and case hits the same entry. */
  lemma DictLookupNormalizes(cache: map<string, int>, term: string, now: int)
    ensures DictLookup(cache, Normalize(term), now) == DictLookup(cache, term, now)
  {
    NormalizeIdempotent(term);
  }
}

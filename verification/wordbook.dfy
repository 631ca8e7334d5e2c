/** The personal word list (app.js:213-238, app.js:758-762): entries keyed
    by the trimmed, lower-cased term, newest first, at most 2000 kept. The
    stored list is an input and the list written back the result; reading
    and writing `localStorage` is not part of this model. */
module Wordbook {
  import opened Common
  import opened Text

  /** `{ key, term, zh, addedAt, seen }`; a missing `zh` reads as "" and a
      missing number as 0. */
  datatype Entry = Entry(key: string, term: string, zh: string, addedAt: int, seen: nat)

  /** `saveWordbook` keeps this many entries. */
  const Capacity: nat := 2000

  /** No two entries share a key. */
  predicate UniqueKeys(list: seq<Entry>) {
    forall i, j :: 0 <= i < j < |list| ==> list[i].key != list[j].key
  }

  predicate HasKey(list: seq<Entry>, key: string) {
    exists i :: 0 <= i < |list| && list[i].key == key
  }

  /** `saveWordbook`: what is written back is the first 2000 entries. */
  function Save(list: seq<Entry>): (r: seq<Entry>)
    ensures |r| <= Capacity && |r| <= |list|
    ensures r == list[..|r|]
    ensures |list| <= Capacity ==> r == list
  {
    Take(list, Capacity)
  }

  /** `list.find(x => x.key === key)`, as a position. */
  function FindKey(list: seq<Entry>, key: string): (r: Option<nat>)
    ensures r.Some? ==> r.value < |list| && list[r.value].key == key
    ensures r.Some? ==> forall j :: 0 <= j < r.value ==> list[j].key != key
    ensures r.None? <==> !HasKey(list, key)
    decreases |list|
  {
    if list == [] then None
    else if list[0].key == key then Some(0)
    else
      var r := FindKey(list[1..], key);
      assert HasKey(list, key) ==> HasKey(list[1..], key) by {
        if HasKey(list, key) {
          var i :| 0 <= i < |list| && list[i].key == key;
          assert list[1..][i - 1] == list[i];
        }
      }
      if r.None? then None else Some(r.value + 1)
  }

  /** A repeated add: the first non-empty translation stays, the first
      timestamp stays (a zero one is replaced), and the count goes up. */
  function Bump(e: Entry, zh: string, now: int): (r: Entry)
    ensures r.key == e.key && r.term == e.term
    ensures r.seen == e.seen + 1
    ensures e.zh != "" ==> r.zh == e.zh
    ensures e.zh == "" ==> r.zh == zh
    ensures e.addedAt != 0 ==> r.addedAt == e.addedAt
    ensures e.addedAt == 0 ==> r.addedAt == now
  {
    Entry(e.key, e.term,
      if e.zh != "" then e.zh else zh,
      if e.addedAt != 0 then e.addedAt else now,
      e.seen + 1)
  }

  /** `addToWordbook(term, zh)` at time `now` on the stored list `list`:
      a blank term changes nothing; otherwise the saved list is within the
      cap and, when the stored one was, holds the term's key. */
  function Add(list: seq<Entry>, term: string, zh: string, now: int): (r: seq<Entry>)
    ensures Trim(term) == "" ==> r == list
    ensures Trim(term) != "" ==> |r| <= Capacity
    ensures Trim(term) != "" && |list| <= Capacity ==> HasKey(r, Normalize(term))
  {
    var t := Trim(term);
    if t == "" then list
    else
      var key := Lower(t);
      match FindKey(list, key)
      case Some(i) =>
        var r := Save(list[i := Bump(list[i], zh, now)]);
        assert |list| <= Capacity ==> r[i].key == key;
        r
      case None =>
        var r := Save([Entry(key, t, zh, now, 1)] + list);
        assert r[0].key == key;
        r
  }

  /** A known key updates its entry in place: same length, same position,
      one more sighting, a non-empty translation kept, every other entry
      untouched. */
  lemma AddExisting(list: seq<Entry>, term: string, zh: string, now: int, i: nat)
    requires Trim(term) != "" && |list| <= Capacity
    requires i < |list| && list[i].key == Normalize(term)
    requires UniqueKeys(list)
    ensures |Add(list, term, zh, now)| == |list|
    ensures Add(list, term, zh, now)[i].seen == list[i].seen + 1
    ensures Add(list, term, zh, now)[i].key == list[i].key
    ensures list[i].zh != "" ==> Add(list, term, zh, now)[i].zh == list[i].zh
    ensures forall j :: 0 <= j < |list| && j != i ==> Add(list, term, zh, now)[j] == list[j]
  {
    AddAt(list, term, zh, now, i);
    var b := Bump(list[i], zh, now);
    assert forall j :: 0 <= j < |list| && j != i ==> list[i := b][j] == list[j];
  }

  lemma AddAt(list: seq<Entry>, term: string, zh: string, now: int, i: nat)
    requires Trim(term) != "" && |list| <= Capacity
    requires i < |list| && list[i].key == Normalize(term)
    requires UniqueKeys(list)
    ensures Add(list, term, zh, now) == list[i := Bump(list[i], zh, now)]
  {
    var key := Lower(Trim(term));
    assert HasKey(list, key);
    var f := FindKey(list, key);
    assert f == Some(i);
  }

  /** A new key goes in front with one sighting; the older entries follow
      in order, the oldest dropped when the list was full. */
  lemma AddNew(list: seq<Entry>, term: string, zh: string, now: int)
    requires Trim(term) != "" && !HasKey(list, Normalize(term))
    ensures Add(list, term, zh, now) != []
    ensures Add(list, term, zh, now)[0] == Entry(Normalize(term), Trim(term), zh, now, 1)
    ensures Add(list, term, zh, now)[1..] == Take(list, Capacity - 1)
  {
    var e := Entry(Normalize(term), Trim(term), zh, now, 1);
    var r := Save([e] + list);
    assert r[1..] == ([e] + list)[1..|r|];
    assert ([e] + list)[1..|r|] == list[..|r| - 1];
  }

  /** Adding keeps keys unique and the stored list within its cap. */
  lemma AddKeepsInvariant(list: seq<Entry>, term: string, zh: string, now: int)
    requires UniqueKeys(list) && |list| <= Capacity
    ensures UniqueKeys(Add(list, term, zh, now))
    ensures |Add(list, term, zh, now)| <= Capacity
  {
    var t := Trim(term);
    if t != "" {
      var key := Lower(t);
      match FindKey(list, key)
      case Some(i) =>
        var next := list[i := Bump(list[i], zh, now)];
        assert forall j :: 0 <= j < |next| ==> next[j].key == list[j].key;
      case None =>
        var e := Entry(key, t, zh, now, 1);
        var next := [e] + list;
        UniqueTake(next, Capacity);
    }
  }

  lemma UniqueTake(list: seq<Entry>, n: nat)
    requires UniqueKeys(list)
    ensures UniqueKeys(Take(list, n))
  {
  }

  // ---------------------------------------------------------------------
  // Delete

  predicate KeyIsNot(key: string, e: Entry) {
    e.key != key
  }

  /** The delete button: every entry with the key goes, the rest keep
      their order, and the result is saved. */
  function Delete(list: seq<Entry>, key: string): (r: seq<Entry>)
    ensures |r| <= Capacity
    ensures !HasKey(r, key)
    ensures forall e :: e in r ==> e in list
    ensures |list| <= Capacity ==> forall e :: e in list && e.key != key ==> e in r
  {
    var kept := Filter(list, e => KeyIsNot(key, e));
    var r := Save(kept);
    assert forall j :: 0 <= j < |r| ==> r[j] in kept;
    r
  }

  lemma {:induction false} FilterMissing(list: seq<Entry>, key: string)
    requires !HasKey(list, key)
    ensures Filter(list, e => KeyIsNot(key, e)) == list
    decreases |list|
  {
    if list != [] {
      assert !HasKey(list[1..], key) by {
        forall j | 0 <= j < |list[1..]| ensures list[1..][j].key != key {
          assert list[1..][j] == list[j + 1];
        }
      }
      FilterMissing(list[1..], key);
      assert list[0].key != key;
      assert list == [list[0]] + list[1..];
    }
  }

  /** Deleting a word just added as new gives back the list it was added
      to, as long as that list was not full. */
  lemma DeleteUndoesAdd(list: seq<Entry>, term: string, zh: string, now: int)
    requires Trim(term) != "" && !HasKey(list, Normalize(term)) && |list| < Capacity
    ensures Delete(Add(list, term, zh, now), Normalize(term)) == list
  {
    var key := Normalize(term);
    var e := Entry(key, Trim(term), zh, now, 1);
    assert Add(list, term, zh, now) == [e] + list;
    FilterMissing(list, key);
    assert ([e] + list)[1..] == list;
  }

  /** Delete keeps the order of what remains: every entry stays where it
      was relative to the others, and only the key's entries go. */
  lemma DeleteKeepsOrder(a: seq<Entry>, e: Entry, b: seq<Entry>, key: string)
    requires |a| + 1 + |b| <= Capacity
    ensures Delete(a + [e] + b, key) == Delete(a, key) + (if e.key == key then [] else [e]) + Delete(b, key)
  {
    var keep := (x: Entry) => KeyIsNot(key, x);
    FilterAppend(a + [e], b, keep);
    FilterAppend(a, [e], keep);
    assert Filter([e], keep) == (if e.key == key then [] else [e]) by {
      assert [e][1..] == [];
    }
  }

  /** Deleting keeps keys unique. */
  lemma DeleteKeepsUnique(list: seq<Entry>, key: string)
    requires UniqueKeys(list)
    ensures UniqueKeys(Delete(list, key))
  {
    var kept := Filter(list, e => KeyIsNot(key, e));
    FilterUnique(list, e => KeyIsNot(key, e));
    UniqueTake(kept, Capacity);
  }

  lemma {:induction false} FilterUnique(list: seq<Entry>, keep: Entry -> bool)
    requires UniqueKeys(list)
    ensures UniqueKeys(Filter(list, keep))
    decreases |list|
  {
    if list != [] {
      assert UniqueKeys(list[1..]) by {
        forall i, j | 0 <= i < j < |list[1..]| ensures list[1..][i].key != list[1..][j].key {
          assert list[1..][i] == list[i + 1] && list[1..][j] == list[j + 1];
        }
      }
      FilterUnique(list[1..], keep);
      var rest := Filter(list[1..], keep);
      assert forall e :: e in rest ==> e.key != list[0].key by {
        forall e | e in rest ensures e.key != list[0].key {
          assert e in list[1..];
          var j :| 0 <= j < |list[1..]| && list[1..][j] == e;
          assert list[j + 1] == e;
        }
      }
      var head := if keep(list[0]) then [list[0]] else [];
      forall i, j | 0 <= i < j < |head + rest| ensures (head + rest)[i].key != (head + rest)[j].key {
        if i < |head| {
          assert (head + rest)[j] == rest[j - |head|];
          assert rest[j - |head|] in rest;
        } else {
          assert (head + rest)[i] == rest[i - |head|] && (head + rest)[j] == rest[j - |head|];
        }
      }
    }
  }
}

/** The translation quiz (app.js:298-330, app.js:494-498, app.js:542): an
    English sentence with four Chinese options, one of them its own
    translation. Every `Math.random()` the code calls is the next value of a
    finite sequence of draws; a run that needs more draws than it is given
    ends in `OutOfDraws`. */
module Quiz {
  import opened Common
  import opened Dataset

  /** `{ subject, q, opts, ans, n, score, chosen }`. `chosen` is `null`
      until an option is picked. */
  datatype Quiz = Quiz(
    subject: string,
    q: Card,
    opts: seq<string>,
    ans: string,
    n: nat,
    score: nat,
    chosen: Option<string>)

  /** What one call of `startQuiz` comes to. */
  datatype Start = NoQuiz | OutOfDraws | Started(quiz: Quiz)

  const OptionCount: nat := 4

  predicate AllDraws(draws: seq<real>) {
    forall i :: 0 <= i < |draws| ==> IsDraw(draws[i])
  }

  lemma AllDrawsTail(draws: seq<real>)
    requires draws != [] && AllDraws(draws)
    ensures IsDraw(draws[0]) && AllDraws(draws[1..])
  {
    assert forall i :: 0 <= i < |draws[1..]| ==> draws[1..][i] == draws[i + 1];
  }

  /** A card takes part when both its English and its Chinese are non-empty. */
  predicate Usable(c: Card) {
    c.en != "" && c.zh != ""
  }

  function Pool(cards: seq<Card>): (pool: seq<Card>)
    ensures forall c :: c in pool <==> c in cards && Usable(c)
  {
    Filter(cards, Usable)
  }

  /** The translations of the pool, in order. */
  function Translations(pool: seq<Card>): (zs: seq<string>)
    ensures |zs| == |pool|
    ensures forall i :: 0 <= i < |pool| ==> zs[i] == pool[i].zh
  {
    seq(|pool|, i requires 0 <= i < |pool| => pool[i].zh)
  }

  predicate AllIn(xs: seq<string>, ys: seq<string>) {
    forall x :: x in xs ==> x in ys
  }

  /** `ys` without `x`. */
  function Remove(ys: seq<string>, x: string): (r: seq<string>)
    ensures forall y :: y in r <==> y in ys && y != x
    ensures |r| <= |ys| && (x in ys ==> |r| < |ys|)
    ensures x !in ys ==> r == ys
    decreases |ys|
  {
    if ys == [] then []
    else
      var rest := Remove(ys[1..], x);
      assert ys == [ys[0]] + ys[1..];
      if ys[0] == x then rest else [ys[0]] + rest
  }

  lemma DistinctTail(ys: seq<string>)
    requires ys != [] && Distinct(ys)
    ensures Distinct(ys[1..]) && ys[0] !in ys[1..]
  {
    assert forall i, j :: 0 <= i < j < |ys[1..]| ==> ys[1..][i] == ys[i + 1] && ys[1..][j] == ys[j + 1];
  }

  /** Removing an element of a repeat-free list shortens it by one and
      keeps it repeat-free. */
  lemma {:induction false} RemoveDistinct(ys: seq<string>, x: string)
    requires Distinct(ys)
    ensures Distinct(Remove(ys, x))
    ensures x in ys ==> |Remove(ys, x)| == |ys| - 1
    decreases |ys|
  {
    if ys != [] {
      DistinctTail(ys);
      RemoveDistinct(ys[1..], x);
      assert ys == [ys[0]] + ys[1..];
      if ys[0] != x {
        var rest := Remove(ys[1..], x);
        assert ys[0] !in rest;
        assert Distinct([ys[0]] + rest) by {
          assert forall j :: 0 < j < |[ys[0]] + rest| ==> ([ys[0]] + rest)[j] == rest[j - 1];
        }
      }
    }
  }

  /** A repeat-free list drawn from `ys` is no longer than `ys`. */
  lemma {:induction false} DistinctBound(xs: seq<string>, ys: seq<string>)
    requires Distinct(xs) && AllIn(xs, ys)
    ensures |xs| <= |ys|
    decreases |xs|
  {
    if xs != [] {
      var x := xs[0];
      var ys' := Remove(ys, x);
      DistinctTail(xs);
      assert AllIn(xs[1..], ys') by {
        forall y | y in xs[1..] ensures y in ys' {
          var k :| 0 <= k < |xs[1..]| && xs[1..][k] == y;
          assert xs[k + 1] == y && xs[0] != xs[k + 1];
        }
      }
      DistinctBound(xs[1..], ys');
    }
  }

  // ---------------------------------------------------------------------
  // startQuiz as written

  /** The distractor loop (app.js:304-308): draw a card, add its
      translation unless already there, until four options stand. */
  function FillOptions(pool: seq<Card>, opts: seq<string>, draws: seq<real>): (r: Option<(seq<string>, seq<real>)>)
    requires |pool| > 0 && AllDraws(draws)
    ensures r.Some? ==> AllDraws(r.value.1) && |r.value.1| <= |draws|
    ensures r.Some? ==> |opts| <= |r.value.0|
    ensures r.Some? && |opts| <= OptionCount ==> |r.value.0| == OptionCount
    ensures r.Some? ==> r.value.0[..|opts|] == opts
    ensures r.Some? && Distinct(opts) ==> Distinct(r.value.0)
    ensures r.Some? && AllIn(opts, Translations(pool)) ==> AllIn(r.value.0, Translations(pool))
    decreases |draws|
  {
    if |opts| >= OptionCount then Some((opts, draws))
    else if draws == [] then None
    else
      AllDrawsTail(draws);
      var c := pool[RandomIndex(draws[0], |pool|)].zh;
      if c in opts then FillOptions(pool, opts, draws[1..])
      else
        assert Distinct(opts) ==> Distinct(opts + [c]);
        var r := FillOptions(pool, opts + [c], draws[1..]);
        assert r.Some? ==> r.value.0[..|opts|] == (opts + [c])[..|opts|];
        r
  }

  /** Exchanging two positions. */
  function Swap(a: seq<string>, i: nat, j: nat): (r: seq<string>)
    requires i < |a| && j < |a|
    ensures |r| == |a| && multiset(r) == multiset(a)
  {
    a[i := a[j]][j := a[i]]
  }

  /** The Fisher-Yates loop of app.js:310-313 from position `i` down to 1. */
  function ShuffleFrom(a: seq<string>, i: nat, draws: seq<real>): (r: Option<(seq<string>, seq<real>)>)
    requires i < |a| && AllDraws(draws)
    ensures r.Some? ==> |r.value.0| == |a| && multiset(r.value.0) == multiset(a)
    ensures r.Some? <==> |draws| >= i
    decreases i
  {
    if i == 0 then Some((a, draws))
    else if draws == [] then None
    else
      AllDrawsTail(draws);
      ShuffleFrom(Swap(a, i, RandomIndex(draws[0], i + 1)), i - 1, draws[1..])
  }

  function Shuffle(a: seq<string>, draws: seq<real>): (r: Option<(seq<string>, seq<real>)>)
    requires AllDraws(draws)
    ensures r.Some? ==> |r.value.0| == |a| && multiset(r.value.0) == multiset(a)
    ensures a != [] ==> (r.Some? <==> |draws| >= |a| - 1)
  {
    if a == [] then Some((a, draws)) else ShuffleFrom(a, |a| - 1, draws)
  }

  /** A permutation of a repeat-free list is repeat-free. */
  lemma PermutationDistinct(a: seq<string>, b: seq<string>)
    requires multiset(a) == multiset(b) && Distinct(a)
    ensures Distinct(b)
  {
    DistinctMultiset(a);
    DistinctMultiset(b);
  }

  /** `state.quiz?.n || 0` and `state.quiz?.score || 0`. */
  function PrevCount(prev: Option<Quiz>): nat {
    if prev.Some? then prev.value.n else 0
  }

  function PrevScore(prev: Option<Quiz>): nat {
    if prev.Some? then prev.value.score else 0
  }

  /** What every started quiz satisfies. */
  predicate WellStarted(quiz: Quiz, prev: Option<Quiz>, subject: string, cards: seq<Card>) {
    && quiz.subject == subject
    && quiz.q in cards && Usable(quiz.q)
    && quiz.ans == quiz.q.zh
    && |quiz.opts| == OptionCount && Distinct(quiz.opts)
    && quiz.ans in quiz.opts
    && AllIn(quiz.opts, Translations(Pool(cards)))
    && quiz.n == PrevCount(prev) + 1
    && quiz.score == PrevScore(prev)
    && quiz.chosen == None
  }

  /** Builds the quiz from the question card and its filled options. */
  function Assemble(prev: Option<Quiz>, subject: string, q: Card, filled: seq<string>, draws: seq<real>): (r: Start)
    requires AllDraws(draws)
    ensures r.Started? ==> multiset(r.quiz.opts) == multiset(filled) && r.quiz.q == q && r.quiz.ans == q.zh
    ensures r != NoQuiz
    ensures r.Started? <==> |draws| >= |filled| - 1 || filled == []
  {
    match Shuffle(filled, draws)
    case None => OutOfDraws
    case Some(s) => Started(Quiz(subject, q, s.0, q.zh, PrevCount(prev) + 1, PrevScore(prev), None))
  }

  lemma AssembleWell(prev: Option<Quiz>, subject: string, cards: seq<Card>, q: Card, filled: seq<string>, draws: seq<real>)
    requires AllDraws(draws) && q in Pool(cards)
    requires |filled| == OptionCount && Distinct(filled) && q.zh in filled
    requires AllIn(filled, Translations(Pool(cards)))
    ensures Assemble(prev, subject, q, filled, draws).Started? ==>
      WellStarted(Assemble(prev, subject, q, filled, draws).quiz, prev, subject, cards)
  {
    var r := Assemble(prev, subject, q, filled, draws);
    if r.Started? {
      PermutationDistinct(filled, r.quiz.opts);
      assert |r.quiz.opts| == |filled| by {
        assert |multiset(r.quiz.opts)| == |multiset(filled)|;
      }
      assert q.zh in multiset(r.quiz.opts);
      assert AllIn(r.quiz.opts, Translations(Pool(cards))) by {
        forall x | x in r.quiz.opts ensures x in Translations(Pool(cards)) {
          assert x in multiset(r.quiz.opts);
        }
      }
    }
  }

  /** `startQuiz(subject, ds)` with `prev` the quiz held before: it bails
      out exactly when fewer than four cards are usable, and a started
      quiz asks about a usable card whose own translation is the answer. */
  function StartQuiz(prev: Option<Quiz>, subject: string, cards: seq<Card>, draws: seq<real>): (r: Start)
    requires AllDraws(draws)
    ensures r == NoQuiz <==> |Pool(cards)| < OptionCount
    ensures r.Started? ==> r.quiz.q in Pool(cards) && r.quiz.ans == r.quiz.q.zh
  {
    var pool := Pool(cards);
    if |pool| < OptionCount then NoQuiz
    else if draws == [] then OutOfDraws
    else
      AllDrawsTail(draws);
      var q := pool[RandomIndex(draws[0], |pool|)];
      match FillOptions(pool, [q.zh], draws[1..])
      case None => OutOfDraws
      case Some(f) => Assemble(prev, subject, q, f.0, f.1)
  }

  /** No quiz exactly when fewer than four cards are usable; a started one
      has four different options drawn from the pool's translations, the
      question's own among them, the counter one up and the score carried. */
  lemma StartQuizShape(prev: Option<Quiz>, subject: string, cards: seq<Card>, draws: seq<real>)
    requires AllDraws(draws)
    ensures StartQuiz(prev, subject, cards, draws) == NoQuiz <==> |Pool(cards)| < OptionCount
    ensures StartQuiz(prev, subject, cards, draws).Started? ==>
      WellStarted(StartQuiz(prev, subject, cards, draws).quiz, prev, subject, cards)
  {
    var pool := Pool(cards);
    if |pool| >= OptionCount && draws != [] {
      AllDrawsTail(draws);
      var q := pool[RandomIndex(draws[0], |pool|)];
      assert q.zh == Translations(pool)[RandomIndex(draws[0], |pool|)];
      assert Distinct([q.zh]);
      var f := FillOptions(pool, [q.zh], draws[1..]);
      if f.Some? {
        assert f.value.0[..1] == [q.zh];
        assert q.zh == f.value.0[0];
        AssembleWell(prev, subject, cards, q, f.value.0, f.value.1);
      }
    }
  }

  /** The distractor loop cannot finish while fewer than four different
      translations exist: whatever the draws, it is still drawing. */
  lemma FillNeedsFourTranslations(pool: seq<Card>, opts: seq<string>, draws: seq<real>)
    requires |pool| > 0 && AllDraws(draws)
    requires |opts| <= OptionCount && Distinct(opts) && AllIn(opts, Translations(pool))
    requires |Dedup(Translations(pool))| < OptionCount
    ensures FillOptions(pool, opts, draws).None?
  {
    var r := FillOptions(pool, opts, draws);
    if r.Some? {
      DistinctBound(r.value.0, Dedup(Translations(pool)));
      assert false;
    }
  }

  /** The hang: four or more usable cards sharing fewer than four
      translations start no quiz however the draws fall. */
  lemma StartQuizHangs(prev: Option<Quiz>, subject: string, cards: seq<Card>, draws: seq<real>)
    requires AllDraws(draws)
    requires |Pool(cards)| >= OptionCount && |Dedup(Translations(Pool(cards)))| < OptionCount
    ensures StartQuiz(prev, subject, cards, draws) == OutOfDraws
  {
    var pool := Pool(cards);
    if draws != [] {
      AllDrawsTail(draws);
      var q := pool[RandomIndex(draws[0], |pool|)];
      assert q.zh == Translations(pool)[RandomIndex(draws[0], |pool|)];
      FillNeedsFourTranslations(pool, [q.zh], draws[1..]);
    }
  }

  /** While fewer than four options stand and the pool has four different
      translations, some card of the pool has a translation not yet among
      the options. */
  lemma MissingTranslation(pool: seq<Card>, opts: seq<string>) returns (i: nat)
    requires Distinct(opts) && |opts| < OptionCount
    requires |Dedup(Translations(pool))| >= OptionCount
    ensures i < |pool| && pool[i].zh !in opts
  {
    var ts := Translations(pool);
    if forall k :: 0 <= k < |pool| ==> pool[k].zh in opts {
      assert AllIn(Dedup(ts), opts) by {
        forall x | x in Dedup(ts) ensures x in opts {
          var k :| 0 <= k < |ts| && ts[k] == x;
        }
      }
      DistinctBound(Dedup(ts), opts);
      assert false;
    }
    i :| 0 <= i < |pool| && pool[i].zh !in opts;
  }

  /** With four different translations in the pool, the distractor loop
      can finish: some `4 - |opts|` draws, one per missing option, end it,
      and whatever draws follow them are left over. */
  lemma {:induction false} FillCanFinish(pool: seq<Card>, opts: seq<string>, tail: seq<real>) returns (ds: seq<real>)
    requires |pool| > 0 && AllDraws(tail)
    requires Distinct(opts) && |opts| <= OptionCount
    requires |Dedup(Translations(pool))| >= OptionCount
    ensures |ds| == OptionCount - |opts| && AllDraws(ds + tail)
    ensures FillOptions(pool, opts, ds + tail).Some?
    ensures FillOptions(pool, opts, ds + tail).value.1 == tail
    decreases OptionCount - |opts|
  {
    if |opts| == OptionCount {
      ds := [];
      assert ds + tail == tail;
    } else {
      var i := MissingTranslation(pool, opts);
      DrawFor(i, |pool|);
      var d := i as real / |pool| as real;
      var rest := FillCanFinish(pool, opts + [pool[i].zh], tail);
      ds := [d] + rest;
      assert ds + tail == [d] + (rest + tail);
      assert AllDraws(ds + tail) by {
        forall k | 0 <= k < |ds + tail| ensures IsDraw((ds + tail)[k]) {
          if k > 0 {
            assert (ds + tail)[k] == (rest + tail)[k - 1];
          }
        }
      }
      assert (ds + tail)[1..] == rest + tail;
    }
  }

  /** The converse of `StartQuizHangs`: with four different translations
      among the usable cards, seven draws can start a quiz as written,
      one for the question, three for the distractors and three for the
      shuffle. */
  lemma StartQuizCanStart(prev: Option<Quiz>, subject: string, cards: seq<Card>)
    requires |Dedup(Translations(Pool(cards)))| >= OptionCount
    ensures exists draws :: |draws| == 7 && AllDraws(draws) && StartQuiz(prev, subject, cards, draws).Started?
  {
    var pool := Pool(cards);
    DistinctBound(Dedup(Translations(pool)), Translations(pool));
    var tail := [0.0, 0.0, 0.0];
    var ds := FillCanFinish(pool, [pool[0].zh], tail);
    DrawFor(0, |pool|);
    var draws := [0.0] + (ds + tail);
    assert draws[1..] == ds + tail;
    assert AllDraws(draws) by {
      forall k | 0 <= k < |draws| ensures IsDraw(draws[k]) {
        if k > 0 {
          assert draws[k] == (ds + tail)[k - 1];
        }
      }
    }
    StartedOnceFilled(prev, subject, cards, draws);
  }

  /** A start whose distractor loop finishes, leaving three draws for the
      shuffle, has started a quiz. */
  lemma StartedOnceFilled(prev: Option<Quiz>, subject: string, cards: seq<Card>, draws: seq<real>)
    requires |Pool(cards)| >= OptionCount && draws != [] && AllDraws(draws)
    requires IsDraw(draws[0]) && AllDraws(draws[1..])
    requires FillOptions(Pool(cards), [Pool(cards)[RandomIndex(draws[0], |Pool(cards)|)].zh], draws[1..]).Some?
    requires |FillOptions(Pool(cards), [Pool(cards)[RandomIndex(draws[0], |Pool(cards)|)].zh], draws[1..]).value.1| >= OptionCount - 1
    ensures StartQuiz(prev, subject, cards, draws).Started?
  {
  }

  // ---------------------------------------------------------------------
  // startQuiz corrected: require four different translations and draw the
  // distractors among the translations not yet used

  /** Picks `k` more options, each drawn from the candidates still unused.
      This goes beyond guarding on the number of different translations:
      where the loop of app.js:305-308 redraws on a repeat, this filler
      never repeats, so it uses one draw per option and the draws map to
      options differently from app.js even when its loop ends. */
  function FillFixed(cands: seq<string>, opts: seq<string>, draws: seq<real>, k: nat): (r: Option<(seq<string>, seq<real>)>)
    requires AllDraws(draws) && Distinct(cands) && |cands| >= k
    ensures r.Some? <==> |draws| >= k
    ensures r.Some? ==> AllDraws(r.value.1) && |r.value.1| == |draws| - k
    decreases k
  {
    if k == 0 then Some((opts, draws))
    else if draws == [] then None
    else
      AllDrawsTail(draws);
      var c := cands[RandomIndex(draws[0], |cands|)];
      var rest := Remove(cands, c);
      RemoveDistinct(cands, c);
      FillFixed(rest, opts + [c], draws[1..], k - 1)
  }

  /** The options already there, not among the candidates. */
  predicate Apart(opts: seq<string>, cands: seq<string>) {
    Distinct(opts) && Distinct(cands) && forall x :: x in opts ==> x !in cands
  }

  predicate Extends(out: seq<string>, opts: seq<string>, cands: seq<string>, k: nat) {
    && |out| == |opts| + k
    && out[..|opts|] == opts
    && (forall x :: x in out ==> x in opts || x in cands)
    && (Apart(opts, cands) ==> Distinct(out))
  }

  /** The filled options: the old ones first, `k` new ones from the
      candidates, no repeats. */
  lemma {:induction false} FillFixedExtends(cands: seq<string>, opts: seq<string>, draws: seq<real>, k: nat)
    requires AllDraws(draws) && Distinct(cands) && |cands| >= k
    ensures FillFixed(cands, opts, draws, k).Some? ==>
      Extends(FillFixed(cands, opts, draws, k).value.0, opts, cands, k)
    decreases k
  {
    if k > 0 && draws != [] {
      AllDrawsTail(draws);
      var c := cands[RandomIndex(draws[0], |cands|)];
      var rest := Remove(cands, c);
      var more := opts + [c];
      var m: nat := k - 1;
      RemoveDistinct(cands, c);
      FillFixedExtends(rest, more, draws[1..], m);
      var r := FillFixed(rest, more, draws[1..], m);
      assert FillFixed(cands, opts, draws, k) == r;
      if r.Some? {
        FillFixedStep(cands, opts, c, r.value.0, k);
      }
    }
  }

  lemma FillFixedStep(cands: seq<string>, opts: seq<string>, c: string, out: seq<string>, k: nat)
    requires k > 0 && c in cands
    requires Extends(out, opts + [c], Remove(cands, c), k - 1)
    ensures Extends(out, opts, cands, k)
  {
    assert out[..|opts|] == (opts + [c])[..|opts|];
    if Apart(opts, cands) {
      RemoveDistinct(cands, c);
      assert Distinct(opts + [c]) by {
        assert forall j :: 0 <= j < |opts| ==> (opts + [c])[j] == opts[j];
      }
    }
  }

  /** The corrected start once the guard has passed. */
  function FixedBody(prev: Option<Quiz>, subject: string, pool: seq<Card>, zs: seq<string>, draws: seq<real>): (r: Start)
    requires AllDraws(draws) && |pool| > 0
    requires zs == Dedup(Translations(pool)) && |zs| >= OptionCount
  {
    if draws == [] then OutOfDraws
    else
      AllDrawsTail(draws);
      var i := RandomIndex(draws[0], |pool|);
      var q := pool[i];
      assert q.zh == Translations(pool)[i];
      var cands := Remove(zs, q.zh);
      RemoveDistinct(zs, q.zh);
      match FillFixed(cands, [q.zh], draws[1..], OptionCount - 1)
      case None => OutOfDraws
      case Some(f) => Assemble(prev, subject, q, f.0, f.1)
  }

  /** `startQuiz` with the guard counting different translations. */
  function StartQuizFixed(prev: Option<Quiz>, subject: string, cards: seq<Card>, draws: seq<real>): (r: Start)
    requires AllDraws(draws)
  {
    var pool := Pool(cards);
    var zs := Dedup(Translations(pool));
    if |zs| < OptionCount then NoQuiz
    else
      DistinctBound(zs, Translations(pool));
      FixedBody(prev, subject, pool, zs, draws)
  }

  /** Options the corrected filler produces: four, different, the
      answer first, all translations of the pool. */
  predicate GoodOptions(out: seq<string>, ans: string, pool: seq<Card>) {
    |out| == OptionCount && Distinct(out) && ans in out && AllIn(out, Translations(pool))
  }

  lemma FixedOptions(pool: seq<Card>, zs: seq<string>, ans: string, draws: seq<real>)
    requires AllDraws(draws) && zs == Dedup(Translations(pool)) && ans in zs
    requires |zs| >= OptionCount
    ensures |Remove(zs, ans)| >= OptionCount - 1 && Distinct(Remove(zs, ans))
    ensures FillFixed(Remove(zs, ans), [ans], draws, OptionCount - 1).Some? ==>
      GoodOptions(FillFixed(Remove(zs, ans), [ans], draws, OptionCount - 1).value.0, ans, pool)
  {
    var cands := Remove(zs, ans);
    RemoveDistinct(zs, ans);
    FillFixedExtends(cands, [ans], draws, OptionCount - 1);
    var f := FillFixed(cands, [ans], draws, OptionCount - 1);
    if f.Some? {
      assert Apart([ans], cands);
      assert f.value.0[..1] == [ans];
      assert ans == f.value.0[0];
    }
  }

  lemma FixedBodyShape(prev: Option<Quiz>, subject: string, cards: seq<Card>, pool: seq<Card>, zs: seq<string>, draws: seq<real>)
    requires AllDraws(draws) && pool == Pool(cards) && |pool| > 0
    requires zs == Dedup(Translations(pool)) && |zs| >= OptionCount
    ensures FixedBody(prev, subject, pool, zs, draws) != NoQuiz
    ensures |draws| >= 2 * OptionCount - 1 ==> FixedBody(prev, subject, pool, zs, draws).Started?
    ensures FixedBody(prev, subject, pool, zs, draws).Started? ==>
      WellStarted(FixedBody(prev, subject, pool, zs, draws).quiz, prev, subject, cards)
  {
    if draws != [] {
      AllDrawsTail(draws);
      var i := RandomIndex(draws[0], |pool|);
      var q := pool[i];
      assert q.zh == Translations(pool)[i];
      FixedOptions(pool, zs, q.zh, draws[1..]);
      var f := FillFixed(Remove(zs, q.zh), [q.zh], draws[1..], OptionCount - 1);
      if f.Some? {
        AssembleWell(prev, subject, cards, q, f.value.0, f.value.1);
      }
    }
  }

  /** The corrected start: no quiz exactly when fewer than four different
      translations exist, otherwise a well-formed quiz once seven draws are
      available (one question, three distractors, three swaps). */
  lemma StartQuizFixedShape(prev: Option<Quiz>, subject: string, cards: seq<Card>, draws: seq<real>)
    requires AllDraws(draws)
    ensures StartQuizFixed(prev, subject, cards, draws) == NoQuiz <==>
      |Dedup(Translations(Pool(cards)))| < OptionCount
    ensures |Dedup(Translations(Pool(cards)))| >= OptionCount && |draws| >= 2 * OptionCount - 1 ==>
      StartQuizFixed(prev, subject, cards, draws).Started?
    ensures StartQuizFixed(prev, subject, cards, draws).Started? ==>
      WellStarted(StartQuizFixed(prev, subject, cards, draws).quiz, prev, subject, cards)
  {
    var zs := Dedup(Translations(Pool(cards)));
    if |zs| >= OptionCount {
      DistinctBound(zs, Translations(Pool(cards)));
      FixedBodyShape(prev, subject, cards, Pool(cards), zs, draws);
    }
  }

  /** Cards that are all usable and all translated as `z`. */
  predicate AllAlike(cards: seq<Card>, z: string) {
    forall c :: c in cards ==> Usable(c) && c.zh == z
  }

  lemma AlikeTranslations(cards: seq<Card>, z: string)
    requires AllAlike(cards, z)
    ensures Pool(cards) == cards
    ensures |Dedup(Translations(Pool(cards)))| <= 1
  {
    FilterAll(cards, Usable);
    var zs := Dedup(Translations(cards));
    assert AllIn(zs, [z]);
    DistinctBound(zs, [z]);
  }

  /** Four or more usable cards all translated alike: the as-written start
      never finishes, the corrected one declines. */
  lemma AlikeCardsHangOrDecline(prev: Option<Quiz>, subject: string, cards: seq<Card>, z: string, draws: seq<real>)
    requires AllDraws(draws) && AllAlike(cards, z) && |cards| >= OptionCount
    ensures StartQuiz(prev, subject, cards, draws) == OutOfDraws
    ensures StartQuizFixed(prev, subject, cards, draws) == NoQuiz
  {
    AlikeTranslations(cards, z);
    StartQuizHangs(prev, subject, cards, draws);
  }

  lemma HangExample(draws: seq<real>)
    requires AllDraws(draws)
    ensures StartQuiz(None, "math", [Card("a", "x"), Card("b", "x"), Card("c", "x"), Card("d", "x")], draws) == OutOfDraws
    ensures StartQuizFixed(None, "math", [Card("a", "x"), Card("b", "x"), Card("c", "x"), Card("d", "x")], draws) == NoQuiz
  {
    var cards := [Card("a", "x"), Card("b", "x"), Card("c", "x"), Card("d", "x")];
    assert AllAlike(cards, "x");
    AlikeCardsHangOrDecline(None, "math", cards, "x", draws);
  }

  // ---------------------------------------------------------------------
  // pickQuiz

  /** JavaScript truthiness of `chosen`: set to a non-empty string. */
  predicate Picked(quiz: Quiz) {
    quiz.chosen.Some? && quiz.chosen.value != ""
  }

  /** `pickQuiz(opt)`: the first pick records the option and scores a
      point exactly when it is the answer; later picks change nothing. */
  function PickQuiz(state: Option<Quiz>, opt: string): (r: Option<Quiz>)
    ensures state.None? ==> r.None?
    ensures state.Some? && Picked(state.value) ==> r == state
    ensures state.Some? && !Picked(state.value) ==>
      r.Some? && r.value.chosen == Some(opt) &&
      r.value.score == state.value.score + (if opt == state.value.ans then 1 else 0) &&
      r.value == state.value.(chosen := Some(opt), score := r.value.score)
  {
    if state.None? || Picked(state.value) then state
    else
      var quiz := state.value;
      Some(quiz.(chosen := Some(opt), score := quiz.score + if opt == quiz.ans then 1 else 0))
  }

  /** Only the first pick counts. */
  lemma PickOnce(state: Option<Quiz>, a: string, b: string)
    requires a != ""
    ensures PickQuiz(PickQuiz(state, a), b) == PickQuiz(state, a)
  {
  }

  // ---------------------------------------------------------------------
  // The quiz tab

  /** What the quiz tab shows. */
  datatype View = Shows(quiz: Quiz) | NotEnough | Hangs

  /** Entering the quiz tab of `key` (app.js:494-498): a new quiz is started
      unless one of this subject is held; when none can be started the held
      quiz stays and is the one shown. */
  function EnterQuiz(state: Option<Quiz>, key: string, cards: seq<Card>, draws: seq<real>): (r: (Option<Quiz>, View))
    requires AllDraws(draws)
    ensures r.1.Shows? ==> r.0 == Some(r.1.quiz)
    ensures r.1 == NotEnough <==> state.None? && |Pool(cards)| < OptionCount
    ensures r.1.Shows? && r.1.quiz.subject != key ==> state.Some? && r.1.quiz == state.value
  {
    if state.Some? && state.value.subject == key then (state, Shows(state.value))
    else match StartQuiz(state, key, cards, draws)
      case Started(q) => (Some(q), Shows(q))
      case OutOfDraws => (state, Hangs)
      case NoQuiz => (state, if state.Some? then Shows(state.value) else NotEnough)
  }

  /** The stale quiz: entering a subject with too few cards shows the quiz
      of the subject visited before. */
  lemma EnterShowsOtherSubject(state: Option<Quiz>, key: string, cards: seq<Card>, draws: seq<real>)
    requires AllDraws(draws)
    requires state.Some? && state.value.subject != key && |Pool(cards)| < OptionCount
    ensures EnterQuiz(state, key, cards, draws).1 == Shows(state.value)
    ensures EnterQuiz(state, key, cards, draws).1.quiz.subject != key
  {
    StartQuizShape(state, key, cards, draws);
  }

  lemma StaleQuizExample()
    ensures EnterQuiz(Some(Quiz("math", Card("1 + 1", "一加一"), ["a", "b", "c", "d"], "a", 1, 0, None)),
      "science", [], []).1.quiz.subject == "math"
  {
    EnterShowsOtherSubject(Some(Quiz("math", Card("1 + 1", "一加一"), ["a", "b", "c", "d"], "a", 1, 0, None)),
      "science", [], []);
  }

  /** Corrected: when no quiz of this subject can be started, the tab says
      so instead of showing another subject's quiz. */
  function EnterQuizFixed(state: Option<Quiz>, key: string, cards: seq<Card>, draws: seq<real>): (r: (Option<Quiz>, View))
    requires AllDraws(draws)
  {
    if state.Some? && state.value.subject == key then (state, Shows(state.value))
    else match StartQuizFixed(state, key, cards, draws)
      case Started(q) => (Some(q), Shows(q))
      case OutOfDraws => (state, Hangs)
      case NoQuiz => (state, NotEnough)
  }

  /** The corrected tab only ever shows a quiz of its own subject. */
  lemma EnterFixedShowsOwnSubject(state: Option<Quiz>, key: string, cards: seq<Card>, draws: seq<real>)
    requires AllDraws(draws)
    ensures EnterQuizFixed(state, key, cards, draws).1.Shows? ==>
      EnterQuizFixed(state, key, cards, draws).1.quiz.subject == key
  {
    StartQuizFixedShape(state, key, cards, draws);
  }

  // ---------------------------------------------------------------------
  // The score never passes the number of questions

  /** The badge of app.js:510 reads `score / (n - (chosen ? 0 : 1))`: the
      points never exceed the questions answered. */
  predicate ScoreOk(quiz: Quiz) {
    quiz.ans != "" && quiz.score + (if Picked(quiz) then 0 else 1) <= quiz.n
  }

  predicate StateOk(state: Option<Quiz>) {
    state.None? || ScoreOk(state.value)
  }

  /** A user action on the quiz tab. */
  datatype Event =
    | Enter(key: string, cards: seq<Card>, draws: seq<real>)
    | Next(key: string, cards: seq<Card>, draws: seq<real>)
    | Pick(opt: string)

  predicate EventOk(e: Event) {
    !e.Pick? ==> AllDraws(e.draws)
  }

  /** The state after one event; a start that runs out of draws leaves the
      state as it was. */
  function Step(state: Option<Quiz>, e: Event): Option<Quiz>
    requires EventOk(e)
  {
    match e
    case Enter(key, cards, draws) => EnterQuiz(state, key, cards, draws).0
    case Next(key, cards, draws) =>
      (match StartQuiz(state, key, cards, draws)
       case Started(q) => Some(q)
       case _ => state)
    case Pick(opt) => PickQuiz(state, opt)
  }

  function Run(state: Option<Quiz>, events: seq<Event>): Option<Quiz>
    requires forall i :: 0 <= i < |events| ==> EventOk(events[i])
    decreases |events|
  {
    if events == [] then state
    else Run(Step(state, events[0]), events[1..])
  }

  lemma StartKeeps(prev: Option<Quiz>, key: string, cards: seq<Card>, draws: seq<real>)
    requires AllDraws(draws) && StateOk(prev)
    ensures StartQuiz(prev, key, cards, draws).Started? ==> ScoreOk(StartQuiz(prev, key, cards, draws).quiz)
  {
    StartQuizShape(prev, key, cards, draws);
  }

  lemma StepKeeps(state: Option<Quiz>, e: Event)
    requires EventOk(e) && StateOk(state)
    ensures StateOk(Step(state, e))
  {
    match e
    case Enter(key, cards, draws) =>
      StartKeeps(state, key, cards, draws);
    case Next(key, cards, draws) =>
      StartKeeps(state, key, cards, draws);
    case Pick(opt) =>
  }

  /** Across any sequence of quiz-tab actions from no quiz, the score never
      exceeds the number of questions. */
  lemma {:induction false} ScoreNeverExceedsCount(state: Option<Quiz>, events: seq<Event>)
    requires forall i :: 0 <= i < |events| ==> EventOk(events[i])
    requires StateOk(state)
    ensures StateOk(Run(state, events))
    ensures Run(state, events).Some? ==> Run(state, events).value.score <= Run(state, events).value.n
    decreases |events|
  {
    if events != [] {
      StepKeeps(state, events[0]);
      assert forall i :: 0 <= i < |events[1..]| ==> EventOk(events[1..][i]) by {
        assert forall i :: 0 <= i < |events[1..]| ==> events[1..][i] == events[i + 1];
      }
      ScoreNeverExceedsCount(Step(state, events[0]), events[1..]);
    }
  }
}

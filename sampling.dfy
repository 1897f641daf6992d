/**
  The sampling estimator: one random walk of n steps over the transition
  model, counting how often each page is drawn. The weighted random draw is
  not modelled; the pages drawn come in as the sequence `draws`, and the
  precondition IsWalk says that each of them is a key of the distribution
  it was drawn from.
 */
module Sampling {
  import opened Graph
  import opened Sums
  import opened Transitions

  /**
    `draws` is a walk the sampler can take: every drawn page is one the
    transition model accepts (the program looks it up in the corpus), the
    first is a key of the uniform start, and every later one is a key of the
    transition from the page drawn before it.
   */
  predicate IsWalk<P>(corpus: Corpus<P>, d: real, draws: seq<P>)
  {
    && (forall i :: 0 <= i < |draws| ==> Steppable(corpus, draws[i]))
    && (forall i {:trigger Transition(corpus, draws[i], d)} :: 0 <= i < |draws| - 1 ==> draws[i + 1] in Transition(corpus, draws[i], d))
  }

  /** How many times each drawn page was drawn. */
  function Visits<P>(draws: seq<P>): map<P, real>
  {
    map p | p in draws :: multiset(draws)[p] as real
  }

  /** The share of the walk spent on each drawn page. */
  function Frequencies<P>(draws: seq<P>): map<P, real>
  {
    map p | p in draws :: multiset(draws)[p] as real / |draws| as real
  }

  /** One more draw of x adds one visit to x and changes no other count. */
  lemma VisitsSnoc<P>(draws: seq<P>, x: P)
    ensures Visits(draws + [x]) == Visits(draws)[x := (if x in Visits(draws) then Visits(draws)[x] else 0.0) + 1.0]
  {
    var v, w := Visits(draws), Visits(draws + [x]);
    assert multiset(draws + [x]) == multiset(draws) + multiset{x};
    assert w.Keys == v.Keys + {x};
  }

  /** Counting the draws one more step into the walk adds one visit to the page drawn there. */
  lemma VisitsNextDraw<P>(draws: seq<P>, i: nat)
    requires i < |draws|
    ensures var v := Visits(draws[..i]);
            Visits(draws[..i + 1]) == v[draws[i] := (if draws[i] in v then v[draws[i]] else 0.0) + 1.0]
  {
    assert draws[..i + 1] == draws[..i] + [draws[i]];
    VisitsSnoc(draws[..i], draws[i]);
  }

  /** The visit counts of a walk add up to its length. */
  lemma {:induction false} VisitsTotal<P>(draws: seq<P>)
    ensures Total(Visits(draws)) == |draws| as real
  {
    if draws != [] {
      var x, rest := draws[0], draws[1..];
      assert draws == [x] + rest;
      var v, w := Visits(draws), Visits(rest);
      VisitsTotal(rest);
      SumOverRemove(v.Keys, v, x);
      assert v.Keys - {x} == w.Keys - {x};
      SumOverAgree(v.Keys - {x}, v, w);
      if x in rest {
        SumOverRemove(w.Keys, w, x);
      } else {
        assert w.Keys - {x} == w.Keys;
      }
    }
  }

  /** No page is drawn more often than the walk is long. */
  lemma {:induction false} VisitsAtMostLength<P>(draws: seq<P>, p: P)
    ensures multiset(draws)[p] <= |draws|
  {
    if draws != [] {
      assert draws == [draws[0]] + draws[1..];
      VisitsAtMostLength(draws[1..], p);
    }
  }

  /** The frequencies of a non-empty walk are a probability distribution over the drawn pages. */
  lemma FrequenciesAreDistribution<P>(draws: seq<P>)
    requires |draws| > 0
    ensures Total(Frequencies(draws)) == 1.0
    ensures forall p :: p in Frequencies(draws) ==> 0.0 < Frequencies(draws)[p] <= 1.0
  {
    var n := |draws| as real;
    var f, v := Frequencies(draws), Visits(draws);
    assert f.Keys == v.Keys;
    VisitsTotal(draws);
    SumOverScale(f.Keys, v, f, n);
    FractionInUnitInterval(n, n);
    forall p | p in f
      ensures 0.0 < f[p] <= 1.0
    {
      VisitsAtMostLength(draws, p);
      FractionInUnitInterval(multiset(draws)[p] as real, n);
    }
  }

  /** 0 < m <= n gives 0 < m / n <= 1. */
  lemma FractionInUnitInterval(m: real, n: real)
    requires 0.0 < m <= n
    ensures 0.0 < m / n <= 1.0
    ensures m == n ==> m / n == 1.0
  {
    assert m / n * n == m;
  }

  /**
    sample_pagerank with the random draws supplied: the walk counts the
    visits, then the counts are divided by n in place. A count n <= 0 makes
    the sampling loop run zero times, so nothing is counted or divided.
   */
  method SamplePageRank<P>(corpus: Corpus<P>, d: real, n: int, draws: seq<P>) returns (ranks: map<P, real>)
    requires |draws| == if n > 0 then n else 0
    requires IsWalk(corpus, d, draws)
    ensures ranks.Keys == (set p | p in draws) && ranks.Keys <= corpus.Keys
    ensures forall p :: p in ranks ==> ranks[p] == multiset(draws)[p] as real / n as real
    ensures n > 0 ==> Total(ranks) == 1.0
    ensures n <= 0 ==> ranks == map[]
    ensures forall p :: p in ranks ==> 0.0 < ranks[p] <= 1.0
  {
    var counts := Walk(corpus, d, draws);
    ranks := DivideAll(counts, n as real);
    if n > 0 {
      assert ranks == Frequencies(draws);
      FrequenciesAreDistribution(draws);
    }
  }

  /**
    The sampling loop: each step checks that the draw is a key of the
    current distribution, counts the visit and takes the transition from the
    drawn page as the next distribution.
   */
  method Walk<P>(corpus: Corpus<P>, d: real, draws: seq<P>) returns (counts: map<P, real>)
    requires IsWalk(corpus, d, draws)
    ensures counts == Visits(draws)
  {
    var pr := UniformDistribution(corpus);
    counts := map[];
    var i := 0;
    while i < |draws|
      invariant 0 <= i <= |draws|
      invariant pr == Current(corpus, d, draws, i)
      invariant counts == Visits(draws[..i])
    {
      counts, pr := Step(corpus, d, draws, i, counts, pr);
      i := i + 1;
    }
    assert draws[..i] == draws;
  }

  /**
    One turn of the sampling loop: the page drawn from the current
    distribution gets one more visit, and the transition from it becomes the
    distribution of the next draw.
   */
  method Step<P>(corpus: Corpus<P>, d: real, draws: seq<P>, i: nat, counts: map<P, real>, pr: map<P, real>)
    returns (counts': map<P, real>, pr': map<P, real>)
    requires IsWalk(corpus, d, draws) && i < |draws|
    requires counts == Visits(draws[..i]) && pr == Current(corpus, d, draws, i)
    ensures draws[i] in pr
    ensures counts' == Visits(draws[..i + 1]) && pr' == Current(corpus, d, draws, i + 1)
  {
    var page := draws[i];
    DrawIsKey(corpus, d, draws, i);
    counts' := counts[page := (if page in counts then counts[page] else 0.0) + 1.0];
    pr' := TransitionModel(corpus, page, d);
    VisitsNextDraw(draws, i);
  }

  /** The program's last loop: every count divided by n in place. */
  method DivideAll<P>(counts: map<P, real>, n: real) returns (ranks: map<P, real>)
    requires counts == map[] || n != 0.0
    ensures ranks.Keys == counts.Keys
    ensures forall p :: p in ranks ==> ranks[p] == counts[p] / n
  {
    ranks := counts;
    var todo := ranks.Keys;
    while todo != {}
      invariant todo <= counts.Keys
      invariant ranks.Keys == counts.Keys
      invariant counts == map[] || n != 0.0
      invariant forall p :: p in ranks ==> ranks[p] == if p in todo then counts[p] else counts[p] / n
    {
      var item :| item in todo;
      ranks := ranks[item := ranks[item] / n];
      todo := todo - {item};
    }
  }

  /** The distribution the i-th draw of a walk is taken from: the uniform start, then the transition from the previous draw. */
  function Current<P>(corpus: Corpus<P>, d: real, draws: seq<P>, i: nat): map<P, real>
    requires i <= |draws| && (forall j :: 0 <= j < |draws| ==> Steppable(corpus, draws[j]))
  {
    if i == 0 then Uniform(corpus) else Transition(corpus, draws[i - 1], d)
  }

  /** Each draw of a walk is a key of the distribution it is drawn from. */
  lemma DrawIsKey<P>(corpus: Corpus<P>, d: real, draws: seq<P>, i: nat)
    requires IsWalk(corpus, d, draws) && i < |draws|
    ensures draws[i] in Current(corpus, d, draws, i)
  {
    if i > 0 {
      assert draws[(i - 1) + 1] in Transition(corpus, draws[i - 1], d);
    }
  }

  /**
    On a well-formed corpus a walk never needs the Steppable assumption: if
    the first draw is a page of the corpus and every later draw is a key of
    the transition from the page before it, every draw is a page of the
    corpus that the transition model accepts, so the draws form a walk.
   */
  lemma WalkStaysInCorpus<P>(corpus: Corpus<P>, d: real, draws: seq<P>)
    requires WellFormed(corpus) && |draws| > 0 && draws[0] in corpus
    requires forall j {:trigger Transition(corpus, draws[j], d)} :: 0 <= j < |draws| - 1 && Steppable(corpus, draws[j]) ==>
               draws[j + 1] in Transition(corpus, draws[j], d)
    ensures IsWalk(corpus, d, draws)
    ensures (set p | p in draws) <= corpus.Keys
  {
    forall i | 0 <= i < |draws|
      ensures Steppable(corpus, draws[i])
    {
      DrawIsSteppable(corpus, d, draws, i);
    }
  }

  /** The induction behind WalkStaysInCorpus: the draw at index i is steppable. */
  lemma {:induction false} DrawIsSteppable<P>(corpus: Corpus<P>, d: real, draws: seq<P>, i: nat)
    requires WellFormed(corpus) && |draws| > 0 && draws[0] in corpus
    requires forall j {:trigger Transition(corpus, draws[j], d)} :: 0 <= j < |draws| - 1 && Steppable(corpus, draws[j]) ==>
               draws[j + 1] in Transition(corpus, draws[j], d)
    requires i < |draws|
    ensures Steppable(corpus, draws[i])
  {
    if i > 0 {
      DrawIsSteppable(corpus, d, draws, i - 1);
      TransitionStaysInCorpus(corpus, draws[i - 1], d);
      assert draws[(i - 1) + 1] in Transition(corpus, draws[i - 1], d);
    }
  }

  /** A walk that leaves a page with links goes either back to that page or along one of its links. */
  lemma WalkFollowsLinks<P>(corpus: Corpus<P>, d: real, draws: seq<P>, i: nat)
    requires IsWalk(corpus, d, draws)
    requires i + 1 < |draws| && corpus[draws[i]] != {}
    ensures draws[i + 1] == draws[i] || draws[i + 1] in corpus[draws[i]]
  {
    assert draws[i + 1] in Transition(corpus, draws[i], d);
  }

  /** After a dangling page the walk may go on to any page the transition model accepts. */
  lemma WalkLeavesDanglingAnywhere<P>(corpus: Corpus<P>, d: real, draws: seq<P>, q: P)
    requires IsWalk(corpus, d, draws)
    requires |draws| > 0 && corpus[draws[|draws| - 1]] == {} && Steppable(corpus, q)
    ensures IsWalk(corpus, d, draws + [q])
  {
    var next := draws + [q];
    forall i | 0 <= i < |next| - 1
      ensures next[i + 1] in Transition(corpus, next[i], d)
    {
      if i + 1 < |draws| {
        assert next[i + 1] in Transition(corpus, draws[i], d);
      }
    }
  }
}

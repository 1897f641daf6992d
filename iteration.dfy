/**
  The iterative estimator. Every sweep computes, for each page p, the
  teleportation share (1-d)/N plus d times the AVERAGE of the previous
  ranks of the pages linking to p: the program divides the sum of those
  ranks by the number of pages that link to p, not by each linking page's
  number of links. A page that no page links to makes that division fail.
  Sweeps repeat until no rank moved by more than the tolerance.
 */
module Iteration {
  import opened Graph
  import opened Sums
  import opened Transitions

  /** The convergence tolerance: a sweep in which no rank moved by more than this ends the iteration. */
  const Tolerance: real := 0.001

  function Abs(x: real): (r: real)
    ensures r >= 0.0 && (r == x || r == -x)
  {
    if x < 0.0 then -x else x
  }

  /** The pages of the corpus that link to `page`. */
  function InLinks<P>(corpus: Corpus<P>, page: P): set<P>
  {
    set q | q in corpus && page in corpus[q]
  }

  /** linksto_page: scans every page of the corpus and collects those whose links contain `page`. */
  method LinksToPage<P>(corpus: Corpus<P>, page: P) returns (links: set<P>)
    ensures forall q :: q in links <==> q in corpus && page in corpus[q]
  {
    links := {};
    var todo := corpus.Keys;
    while todo != {}
      invariant todo <= corpus.Keys
      invariant forall q :: q in links <==> q in corpus.Keys - todo && page in corpus[q]
    {
      var item :| item in todo;
      if page in corpus[item] {
        links := links + {item};
      }
      todo := todo - {item};
    }
  }

  /** No rank of `oldPr` moved by more than the tolerance in `newPr`. */
  predicate Converged<P>(oldPr: map<P, real>, newPr: map<P, real>)
    requires oldPr.Keys <= newPr.Keys
  {
    forall p :: p in oldPr ==> Abs(oldPr[p] - newPr[p]) <= Tolerance
  }

  /** converged: scans the old ranks and answers false at the first one that moved by more than the tolerance. */
  method CheckConverged<P>(oldPr: map<P, real>, newPr: map<P, real>) returns (ok: bool)
    requires oldPr.Keys <= newPr.Keys
    ensures ok <==> Converged(oldPr, newPr)
  {
    var todo := oldPr.Keys;
    while todo != {}
      invariant todo <= oldPr.Keys
      invariant forall p :: p in oldPr.Keys - todo ==> Abs(oldPr[p] - newPr[p]) <= Tolerance
    {
      var page :| page in todo;
      if Abs(oldPr[page] - newPr[page]) > Tolerance {
        return false;
      }
      todo := todo - {page};
    }
    return true;
  }

  /** Ranks that did not change have converged. */
  lemma ConvergedReflexive<P>(pr: map<P, real>)
    ensures Converged(pr, pr)
  {
  }

  /**
    The program answers false only when a move is greater than the
    tolerance, so the bound is inclusive: in exact reals a move of exactly
    0.001 still counts as converged and a move of 0.0011 does not. In IEEE
    doubles 0.251 - 0.25 rounds to slightly more than 0.001, so there the
    program answers false for the first pair.
   */
  lemma ConvergenceBoundIsInclusive()
    ensures Converged(map[0 := 0.25], map[0 := 0.251])
    ensures !Converged(map[0 := 0.25], map[0 := 0.2511])
  {
    var oldPr, newPr := map[0 := 0.25], map[0 := 0.2511];
    assert 0 in oldPr && Abs(oldPr[0] - newPr[0]) > Tolerance;
  }

  /** Every page of the corpus is linked to by some page: the condition under which a sweep never divides by zero. */
  predicate EveryPageLinkedTo<P>(corpus: Corpus<P>)
  {
    forall p {:trigger InLinks(corpus, p)} :: p in corpus ==> |InLinks(corpus, p)| > 0
  }

  /** The rank a sweep gives `page`: (1-d)/N plus d times the average previous rank of the pages linking to it. */
  ghost function SweepValue<P>(corpus: Corpus<P>, d: real, prev: map<P, real>, page: P): real
    requires prev.Keys == corpus.Keys && page in corpus && |InLinks(corpus, page)| > 0
  {
    var links := InLinks(corpus, page);
    (1.0 - d) / |corpus| as real + d * (SumOver(links, prev) / |links| as real)
  }

  /**
    `next` is what one synchronous sweep makes of `prev`: it ranks the same
    pages, and each page's new rank is its SweepValue, computed from the
    previous ranks only.
   */
  ghost predicate IsSweep<P>(corpus: Corpus<P>, d: real, prev: map<P, real>, next: map<P, real>)
    requires prev.Keys == corpus.Keys && EveryPageLinkedTo(corpus)
  {
    && next.Keys == corpus.Keys
    && forall p {:trigger next[p], SweepValue(corpus, d, prev, p)} :: p in corpus ==> next[p] == SweepValue(corpus, d, prev, p)
  }

  /** A sweep has exactly one outcome. */
  lemma SweepIsUnique<P>(corpus: Corpus<P>, d: real, prev: map<P, real>, a: map<P, real>, b: map<P, real>)
    requires prev.Keys == corpus.Keys && EveryPageLinkedTo(corpus)
    requires IsSweep(corpus, d, prev, a) && IsSweep(corpus, d, prev, b)
    ensures a == b
  {
    forall p | p in a
      ensures a[p] == b[p]
    {
      assert a[p] == SweepValue(corpus, d, prev, p) == b[p];
    }
    MapsEqual(a, b);
  }

  /** The sum loop of a sweep: the previous ranks of the given pages added up. */
  method SumOfRanks<P>(pr: map<P, real>, links: set<P>) returns (total: real)
    requires links <= pr.Keys
    ensures total == SumOver(links, pr)
  {
    total := 0.0;
    var todo := links;
    while todo != {}
      invariant todo <= links
      invariant total == SumOver(links - todo, pr)
    {
      var i :| i in todo;
      ghost var done := links - todo;
      total := total + pr[i];
      todo := todo - {i};
      assert links - todo == done + {i};
      SumOverRemove(done + {i}, pr, i);
      assert done + {i} - {i} == done;
    }
    assert links - todo == links;
  }

  datatype SweepResult<P> = Swept(ranks: map<P, real>) | NoInLinks(page: P)

  /**
    The body of the program's while loop: for every page of the snapshot
    `oldPr`, collect the pages linking to it, add up their old ranks and
    store the new rank. A page nobody links to stops the sweep, where the
    program raises ZeroDivisionError.
   */
  method SweepOnce<P>(corpus: Corpus<P>, d: real, oldPr: map<P, real>) returns (r: SweepResult<P>)
    requires oldPr.Keys == corpus.Keys
    ensures r.NoInLinks? ==> r.page in corpus && |InLinks(corpus, r.page)| == 0
    ensures r.Swept? <==> EveryPageLinkedTo(corpus)
    ensures r.Swept? ==> EveryPageLinkedTo(corpus) && IsSweep(corpus, d, oldPr, r.ranks)
  {
    var pr := oldPr;
    var todo := oldPr.Keys;
    while todo != {}
      invariant todo <= corpus.Keys && pr.Keys == corpus.Keys
      invariant forall p {:trigger InLinks(corpus, p)} :: p in corpus.Keys - todo ==> |InLinks(corpus, p)| > 0
      invariant forall p {:trigger pr[p]} :: p in corpus.Keys - todo ==> pr[p] == SweepValue(corpus, d, oldPr, p)
    {
      var page :| page in todo;
      var linked, rank := NewRank(corpus, d, oldPr, page);
      if !linked {
        return NoInLinks(page);
      }
      pr := pr[page := rank];
      todo := todo - {page};
    }
    SweepCompleted(corpus, d, oldPr, pr, todo);
    return Swept(pr);
  }

  /** Once every page has been given its new rank, the ranks are a sweep of the old ones. */
  lemma SweepCompleted<P>(corpus: Corpus<P>, d: real, oldPr: map<P, real>, pr: map<P, real>, todo: set<P>)
    requires oldPr.Keys == corpus.Keys && pr.Keys == corpus.Keys && todo == {}
    requires forall p {:trigger InLinks(corpus, p)} :: p in corpus.Keys - todo ==> |InLinks(corpus, p)| > 0
    requires forall p {:trigger pr[p]} :: p in corpus.Keys - todo ==> pr[p] == SweepValue(corpus, d, oldPr, p)
    ensures EveryPageLinkedTo(corpus) && IsSweep(corpus, d, oldPr, pr)
  {
  }

  /**
    The new rank of one page: the pages linking to it, the sum of their old
    ranks, and (1-d)/N plus d times that sum over their number. `linked` is
    false where the program divides by zero.
   */
  method NewRank<P>(corpus: Corpus<P>, d: real, oldPr: map<P, real>, page: P) returns (linked: bool, rank: real)
    requires oldPr.Keys == corpus.Keys && page in corpus
    ensures linked <==> |InLinks(corpus, page)| > 0
    ensures linked ==> rank == SweepValue(corpus, d, oldPr, page)
  {
    var links := LinksToPage(corpus, page);
    assert links == InLinks(corpus, page);
    var linksTotalPr := SumOfRanks(oldPr, links);
    if |links| == 0 {
      return false, 0.0;
    }
    var n := |corpus| as real;
    rank := (1.0 - d) / n + d * (linksTotalPr / |links| as real);
    return true, rank;
  }

  /**
    The arithmetic of the fixed point: the average of k equal ranks 1/n is
    1/n, and (1-d)/n + d/n == 1/n.
   */
  lemma UniformValueArithmetic(d: real, k: real, n: real)
    requires k > 0.0 && n > 0.0
    ensures (1.0 - d) / n + d * ((k * (1.0 / n)) / k) == 1.0 / n
  {
    assert (k * (1.0 / n)) / k == 1.0 / n;
    assert (1.0 - d) / n + d * (1.0 / n) == ((1.0 - d) + d) / n;
  }

  /**
    The uniform ranks are a fixed point of the program's sweep, whatever the
    links and the damping factor: every new rank averages equal old ranks.
   */
  lemma UniformIsFixedPoint<P>(corpus: Corpus<P>, d: real)
    requires EveryPageLinkedTo(corpus)
    ensures IsSweep(corpus, d, Uniform(corpus), Uniform(corpus))
  {
    var u := Uniform(corpus);
    forall p {:trigger u[p]} | p in corpus
      ensures u[p] == SweepValue(corpus, d, u, p)
    {
      SweepValueOfUniform(corpus, d, p);
    }
  }

  /** The rank one sweep gives a page from the uniform ranks is again 1/N. */
  lemma SweepValueOfUniform<P>(corpus: Corpus<P>, d: real, p: P)
    requires p in corpus && |InLinks(corpus, p)| > 0
    ensures SweepValue(corpus, d, Uniform(corpus), p) == Uniform(corpus)[p]
  {
    var u := Uniform(corpus);
    var n := |corpus| as real;
    var links := InLinks(corpus, p);
    SumOverConst(links, u, 1.0 / n);
    UniformValueArithmetic(d, |links| as real, n);
  }

  datatype IterationResult<P> = Ranked(ranks: map<P, real>) | DivisionByZero(page: P)

  /**
    iterate_pagerank: start from the uniform ranks and sweep until the
    sweep has converged. Because the uniform ranks are a fixed point of the
    sweep, the first sweep converges; this is also the termination argument
    of the loop.
   */
  method IteratePageRank<P>(corpus: Corpus<P>, d: real) returns (r: IterationResult<P>)
    ensures r.DivisionByZero? ==> r.page in corpus && |InLinks(corpus, r.page)| == 0
    ensures r.Ranked? <==> EveryPageLinkedTo(corpus)
    ensures r.Ranked? ==> EveryPageLinkedTo(corpus) && IsSweep(corpus, d, Uniform(corpus), r.ranks)
    ensures r.Ranked? ==> r.ranks == Uniform(corpus)
    ensures r.Ranked? ==> Converged(Uniform(corpus), r.ranks)
  {
    var pr := UniformDistribution(corpus);
    var hasConverged := false;
    while !hasConverged
      invariant pr == Uniform(corpus)
      invariant hasConverged ==> EveryPageLinkedTo(corpus)
      decreases if hasConverged then 0 else 1
    {
      var oldPr := pr;
      var swept := SweepOnce(corpus, d, oldPr);
      match swept {
        case NoInLinks(page) =>
          return DivisionByZero(page);
        case Swept(next) =>
          UniformIsFixedPoint(corpus, d);
          SweepIsUnique(corpus, d, oldPr, next, oldPr);
          pr := next;
      }
      ConvergedReflexive(pr);
      hasConverged := CheckConverged(oldPr, pr);
    }
    UniformIsFixedPoint(corpus, d);
    return Ranked(pr);
  }

  /** On a non-empty corpus the ranks the iteration returns sum to 1. */
  lemma IteratedRanksSumToOne<P>(corpus: Corpus<P>, d: real)
    requires corpus != map[] && EveryPageLinkedTo(corpus)
    ensures forall next :: IsSweep(corpus, d, Uniform(corpus), next) ==> Total(next) == 1.0
  {
    forall next | IsSweep(corpus, d, Uniform(corpus), next)
      ensures Total(next) == 1.0
    {
      UniformIsFixedPoint(corpus, d);
      SweepIsUnique(corpus, d, Uniform(corpus), next, Uniform(corpus));
      UniformSumsToOne(corpus);
    }
  }

  /**
    A page that links out but is linked to by no page makes the iteration
    divide by zero, and that page is the one reported.
   */
  method UnreachedPageStopsIteration() returns (r: IterationResult<string>)
    ensures r == DivisionByZero("1")
  {
    var corpus: Corpus<string> := map["1" := {"2"}, "2" := {}];
    r := IteratePageRank(corpus, 0.85);
    assert "1" !in corpus["1"] && "1" !in corpus["2"];
    assert |InLinks(corpus, "1")| == 0;
    assert "1" in InLinks(corpus, "2");
  }

  /** Two pages linking to each other: every page is linked to, and the iteration returns 1/2 for each. */
  lemma TwoPageCycle()
    ensures var corpus := map[1 := {2}, 2 := {1}];
            EveryPageLinkedTo(corpus) && IsSweep(corpus, 0.85, Uniform(corpus), map[1 := 0.5, 2 := 0.5])
  {
    var corpus: Corpus<int> := map[1 := {2}, 2 := {1}];
    assert corpus.Keys == {1, 2};
    assert |corpus| == 2;
    assert 2 in InLinks(corpus, 1) && 1 in InLinks(corpus, 2);
    var u, half := Uniform(corpus), map[1 := 0.5, 2 := 0.5];
    assert u.Keys == half.Keys;
    assert 1.0 / |corpus| as real == 0.5;
    forall x | x in u
      ensures u[x] == half[x]
    {
      assert x == 1 || x == 2;
    }
    MapsEqual(u, half);
    UniformIsFixedPoint(corpus, 0.85);
  }
}

/**
  The transition model: the distribution the random surfer draws its next
  page from, given the page it is on. It is modelled as the program computes
  it, which is not the textbook one: for a page with links only the page
  itself and its links are keys, so the values need not sum to 1.
 */
module Transitions {
  import opened Graph
  import opened Sums

  /** The uniform distribution, 1/N on every page of the corpus. */
  function Uniform<P>(corpus: Corpus<P>): map<P, real>
  {
    map p | p in corpus :: 1.0 / |corpus| as real
  }

  /**
    The distribution the program builds for the surfer on `page`, with
    damping factor d. A page with k > 0 links gets the teleportation share
    (1-d)/N and each of its links d/k on top of it; no other page is a key.
    A page without links gets the uniform distribution.
   */
  function Transition<P>(corpus: Corpus<P>, page: P, d: real): map<P, real>
    requires Steppable(corpus, page)
  {
    if corpus[page] == {} then Uniform(corpus) else FollowLinks(corpus, page, d)
  }

  /** The transition from a page with links: (1-d)/N on the page itself, d/k + (1-d)/N on each of its k links. */
  function FollowLinks<P>(corpus: Corpus<P>, page: P, d: real): map<P, real>
    requires Steppable(corpus, page) && corpus[page] != {}
  {
    var links := corpus[page];
    var teleport := (1.0 - d) / |corpus| as real;
    map q | q in {page} + links :: if q in links then d / |links| as real + teleport else teleport
  }

  /** A map with the keys and values that FollowLinks describes is FollowLinks. */
  lemma FollowLinksUnique<P>(corpus: Corpus<P>, page: P, d: real, pr: map<P, real>)
    requires Steppable(corpus, page) && corpus[page] != {}
    requires pr.Keys == {page} + corpus[page]
    requires pr[page] == (1.0 - d) / |corpus| as real
    requires forall q :: q in corpus[page] ==> pr[q] == d / |corpus[page]| as real + pr[page]
    ensures pr == Transition(corpus, page, d)
  {
  }

  /** The loop that fills a fresh dictionary with 1/N for every page of the corpus. */
  method UniformDistribution<P>(corpus: Corpus<P>) returns (pr: map<P, real>)
    ensures pr == Uniform(corpus)
  {
    pr := map[];
    var n := |corpus| as real;
    var todo := corpus.Keys;
    while todo != {}
      invariant todo <= corpus.Keys
      invariant pr.Keys == corpus.Keys - todo
      invariant forall p :: p in pr ==> pr[p] == 1.0 / n
    {
      var item :| item in todo;
      pr := pr[item := 1.0 / n];
      todo := todo - {item};
    }
  }

  /** The uniform distribution of a non-empty corpus sums to 1. */
  lemma UniformSumsToOne<P>(corpus: Corpus<P>)
    requires corpus != map[]
    ensures Total(Uniform(corpus)) == 1.0
  {
    var n := |corpus| as real;
    SumOverConst(corpus.Keys, Uniform(corpus), 1.0 / n);
    assert Uniform(corpus).Keys == corpus.Keys;
    assert |corpus.Keys| as real == n > 0.0;
    assert n * (1.0 / n) == 1.0;
  }

  /**
    transition_model: fills the dictionary by insertion loops. For a linked
    page each link is written as d/k plus the value already stored for the
    page itself, as the program does.
   */
  method TransitionModel<P>(corpus: Corpus<P>, page: P, d: real) returns (pr: map<P, real>)
    requires Steppable(corpus, page)
    ensures pr == Transition(corpus, page, d)
  {
    pr := map[];
    var numberOfPages := |corpus| as real;
    var numberOfLinks := |corpus[page]| as real;

    if numberOfLinks != 0.0 {
      pr := pr[page := (1.0 - d) / numberOfPages];
      pr := AddLinkShares(pr, page, corpus[page], d / numberOfLinks);
      FollowLinksUnique(corpus, page, d, pr);
    } else {
      pr := UniformDistribution(corpus);
    }
  }

  /** The insertion loop over the links: each link gets `share` plus the value stored for `page`, which it leaves alone. */
  method AddLinkShares<P>(pr0: map<P, real>, page: P, links: set<P>, share: real) returns (pr: map<P, real>)
    requires page in pr0 && page !in links
    ensures pr.Keys == pr0.Keys + links
    ensures pr[page] == pr0[page]
    ensures forall q :: q in links ==> pr[q] == share + pr0[page]
    ensures forall q :: q in pr0 && q != page && q !in links ==> pr[q] == pr0[q]
  {
    pr := pr0;
    var todo := links;
    while todo != {}
      invariant todo <= links
      invariant pr.Keys == pr0.Keys + (links - todo)
      invariant pr[page] == pr0[page]
      invariant forall q :: q in links - todo ==> pr[q] == share + pr[page]
      invariant forall q :: q in pr0 && q != page && q !in links ==> pr[q] == pr0[q]
    {
      var i :| i in todo;
      pr := pr[i := share + pr[page]];
      todo := todo - {i};
    }
    assert links - todo == links;
  }

  /** A dangling page sends the surfer to every page of the corpus with probability 1/N, which sums to 1. */
  lemma TransitionDangling<P>(corpus: Corpus<P>, page: P, d: real)
    requires Steppable(corpus, page) && corpus[page] == {}
    ensures Transition(corpus, page, d).Keys == corpus.Keys
    ensures forall q :: q in corpus ==> Transition(corpus, page, d)[q] * |corpus| as real == 1.0
    ensures Total(Transition(corpus, page, d)) == 1.0
  {
    UniformSumsToOne(corpus);
  }

  /**
    A page with k links: the keys are exactly the page and its links, the
    page keeps only the teleportation share and every link gets d/k on top
    of it.
   */
  lemma TransitionLinked<P>(corpus: Corpus<P>, page: P, d: real)
    requires Steppable(corpus, page) && corpus[page] != {}
    ensures Transition(corpus, page, d).Keys == {page} + corpus[page]
    ensures Transition(corpus, page, d)[page] == (1.0 - d) / |corpus| as real
    ensures forall q :: q in corpus[page] ==>
              Transition(corpus, page, d)[q] == d / |corpus[page]| as real + (1.0 - d) / |corpus| as real
  {
    assert Transition(corpus, page, d) == FollowLinks(corpus, page, d);
  }

  /** The transition from a page with k links sums to d + (k+1)(1-d)/N. */
  lemma TransitionLinkedTotal<P>(corpus: Corpus<P>, page: P, d: real)
    requires Steppable(corpus, page) && corpus[page] != {}
    ensures Total(Transition(corpus, page, d)) == d + (|corpus[page]| as real + 1.0) * (1.0 - d) / |corpus| as real
  {
    var n := |corpus| as real;
    var t := (1.0 - d) / n;
    var pr := FollowLinks(corpus, page, d);
    assert Transition(corpus, page, d) == pr;
    LinkedTotal(pr, page, corpus[page], t, d / |corpus[page]| as real + t, d, n);
  }

  /**
    A map shaped like the transition from a page with links, with t on the
    page and c on every link, sums to d + (k+1)(1-d)/n.
   */
  lemma LinkedTotal<P>(pr: map<P, real>, page: P, links: set<P>, t: real, c: real, d: real, n: real)
    requires pr.Keys == {page} + links && page !in links && links != {} && n > 0.0
    requires pr[page] == t && forall q :: q in links ==> pr[q] == c
    requires t == (1.0 - d) / n && c == d / |links| as real + t
    ensures Total(pr) == d + (|links| as real + 1.0) * (1.0 - d) / n
  {
    TotalOfPageAndLinks(pr, page, links, t, c);
    LinkedShares(Total(pr), d, |links| as real, n);
  }

  /** A map on a page and its links, with one value t on the page and c on every link, sums to t + k * c. */
  lemma TotalOfPageAndLinks<P>(pr: map<P, real>, page: P, links: set<P>, t: real, c: real)
    requires pr.Keys == {page} + links && page !in links
    requires pr[page] == t && forall q :: q in links ==> pr[q] == c
    ensures Total(pr) == t + |links| as real * c
  {
    SumOverRemove(pr.Keys, pr, page);
    assert pr.Keys - {page} == links;
    SumOverConst(links, pr, c);
  }

  /** The arithmetic behind TransitionLinked: the page's share plus k link shares is d + (k+1)(1-d)/n. */
  lemma LinkedShares(total: real, d: real, k: real, n: real)
    requires k > 0.0 && n > 0.0
    requires total == (1.0 - d) / n + k * (d / k + (1.0 - d) / n)
    ensures total == d + (k + 1.0) * (1.0 - d) / n
  {
    var t := (1.0 - d) / n;
    assert k * (d / k + t) == d + k * t;
    assert (k + 1.0) * (1.0 - d) / n == (k + 1.0) * t;
  }

  /**
    The program's transition from a linked page sums to 1 exactly when the
    damping factor is 1 or the page links to every other page of the corpus.
   */
  lemma TransitionTotalIsOneIff<P>(corpus: Corpus<P>, page: P, d: real)
    requires Steppable(corpus, page) && corpus[page] != {}
    ensures Total(Transition(corpus, page, d)) == 1.0 <==> (d == 1.0 || |corpus[page]| + 1 == |corpus|)
  {
    TransitionLinkedTotal(corpus, page, d);
    SharesSumToOneIff(d, |corpus[page]| as real, |corpus| as real);
  }

  /** On a well-formed corpus a page has N-1 links exactly when it links to every other page. */
  lemma LinksToAllOthersIff<P>(corpus: Corpus<P>, page: P)
    requires WellFormed(corpus) && page in corpus
    ensures |corpus[page]| + 1 == |corpus| <==> corpus[page] == corpus.Keys - {page}
  {
    var links, others := corpus[page], corpus.Keys - {page};
    assert |others| == |corpus| - 1;
    if |links| == |others| && links != others {
      var x :| x in others && x !in links;
      SubsetCard(links, others - {x});
    }
  }

  /**
    On a well-formed corpus, the program's transition from a linked page sums
    to 1 exactly when the damping factor is 1 or the page links to every
    other page of the corpus.
   */
  lemma TransitionSumsToOneIffLinksToAll<P>(corpus: Corpus<P>, page: P, d: real)
    requires WellFormed(corpus) && page in corpus && corpus[page] != {}
    ensures Total(Transition(corpus, page, d)) == 1.0 <==> (d == 1.0 || corpus[page] == corpus.Keys - {page})
  {
    TransitionTotalIsOneIff(corpus, page, d);
    LinksToAllOthersIff(corpus, page);
  }

  /** The arithmetic behind TransitionTotalIsOneIff: d + (k+1)(1-d)/n == 1 iff d == 1 or k + 1 == n. */
  lemma SharesSumToOneIff(d: real, k: real, n: real)
    requires n > 0.0
    ensures d + (k + 1.0) * (1.0 - d) / n == 1.0 <==> (d == 1.0 || k + 1.0 == n)
  {
    var x := (k + 1.0) * (1.0 - d) / n;
    var a, b := 1.0 - d, k + 1.0 - n;
    assert x * n == (k + 1.0) * a;
    assert (x - a) * n == a * b;
    if d != 1.0 && k + 1.0 != n {
      assert (a * b) / b == a;
      assert x - a != 0.0;
    }
  }

  /** On a well-formed corpus every key of a transition is again a page the surfer can step from. */
  lemma TransitionStaysInCorpus<P>(corpus: Corpus<P>, page: P, d: real)
    requires WellFormed(corpus) && page in corpus
    ensures forall q :: q in Transition(corpus, page, d) ==> Steppable(corpus, q)
  {
  }

  /** A two-page corpus in which page "2" is dangling: from "2" the surfer goes to either page with probability 1/2. */
  lemma DanglingOfTwo()
    ensures var corpus := map["1" := {"2"}, "2" := {}];
            Transition(corpus, "2", 0.85) == map["1" := 0.5, "2" := 0.5]
  {
    var corpus: Corpus<string> := map["1" := {"2"}, "2" := {}];
    assert corpus.Keys == {"1", "2"};
    assert |corpus| == 2;
  }
}

# PageRank of a small link graph, in Dafny

This project models `pagerank.py`, a program that estimates the PageRank of
the pages in a directory of HTML files. The program has two estimators:

- a random surfer that walks the link graph for `n` steps and counts its
  visits;
- an iteration that starts from the uniform ranks and applies an update
  formula until no rank moves by more than 0.001.

The model covers the parts of the program that compute:

- the filtering with which the crawler turns each page's extracted links
  into the link graph ("corpus");
- the transition model;
- the sampling estimator, with its random draws supplied as an input;
- the in-link scan and the convergence test;
- the iterative estimator.

Pages are a type parameter, because the program only compares file names for
equality. Probabilities are exact `real`s. Every loop of the program is a
`method` with a `while` loop and invariants. Each method is proved against a
specification function, and the lemmas beside it prove the properties of that
function.

Modules:

- `Sums` (`sums.dfy`): the sum of a map's values over a set of keys, with the
  lemmas used to compute such sums. This is a helper; it has no counterpart in
  the program.
- `Graph` (`graph.dfy`): the corpus type and the crawler's link filter.
- `Transitions` (`transitions.dfy`): `transition_model` and the uniform start
  distribution.
- `Sampling` (`sampling.dfy`): `sample_pagerank`.
- `Iteration` (`iteration.dfy`): `linksto_page`, `converged` and
  `iterate_pagerank`.

Behaviour of the code that the model keeps as written, although the
docstrings promise something else:

- The docstrings of `transition_model` (pagerank.py:53-60) and of both
  estimators (pagerank.py:85-87, 124-126) promise distributions that sum
  to 1.
  - For a page with `k` links, the code puts the teleportation share
    `(1-d)/N` only on the page itself and on its links. The result therefore
    sums to `d + (k+1)(1-d)/N`.
  - That is 1 exactly when `d == 1` or the page has `N-1` links
    (`Transitions.TransitionTotalIsOneIff`). On a corpus the crawler has
    filtered, having `N-1` links means linking to every other page
    (`Transitions.TransitionSumsToOneIffLinksToAll`).
- The iteration divides the summed ranks of the pages linking to `p` by the
  number of such pages, that is, by `p`'s in-degree. It does not divide each
  contributor's rank by that contributor's out-degree.
  - So every new rank is `(1-d)/N` plus `d` times an average of old ranks.
  - The uniform start is therefore a fixed point of the sweep for every graph
    and every damping factor (`Iteration.UniformIsFixedPoint`).
  - The iteration thus stops after its first sweep and returns `1/N` for every
    page (`Iteration.IteratePageRank`). This is also the loop's termination
    argument.
  - With floating point, the first sweep reproduces `1/N` up to rounding,
    which is far below the 0.001 tolerance. So the same one-sweep behaviour
    holds there.
- A page that no page links to makes the iteration divide by zero. The
  program raises `ZeroDivisionError` at that point. The model returns the
  explicit result `DivisionByZero(page)`, and returns it exactly when some
  page has no in-links.

## Model

| member | source | states |
|---|---|---|
| Graph.NormaliseLinks | pagerank.py:40-47 | The key set is unchanged. No page links to itself. Every remaining link is a page of the corpus. A link is kept exactly when the page extracted it, it is not the page itself, and it names a page of the corpus. |
| Transitions.UniformDistribution | pagerank.py:91-92 | The start loop builds exactly the uniform distribution `1/N` over the corpus keys. |
| Transitions.UniformSumsToOne | pagerank.py:74-77 | The uniform distribution of a non-empty corpus sums to 1. |
| Transitions.TransitionModel | pagerank.py:52-77 | `transition_model`'s insertion loops build exactly the distribution `Transition` describes, for any page that is a key and does not link to itself. |
| Transitions.AddLinkShares | pagerank.py:69-70 | The link loop adds exactly the links as keys. Each link gets `d/k` plus the page's own stored value. The page's value and every other key already present keep their values. |
| Transitions.TransitionDangling | pagerank.py:74-77 | A page without links yields the corpus keys, each with `1/N`, summing to 1. |
| Transitions.TransitionLinked | pagerank.py:61-72 | A page with `k > 0` links yields exactly the keys `{page} ∪ links`, with `(1-d)/N` on the page and `d/k + (1-d)/N` on each link. |
| Transitions.TransitionLinkedTotal | pagerank.py:61-72 | The transition from a page with `k > 0` links sums to `d + (k+1)(1-d)/N`. |
| Transitions.TransitionTotalIsOneIff | pagerank.py:61-72 | For a linked page, the transition sums to 1 if and only if `d == 1` or the page has `N-1` links. |
| Transitions.LinksToAllOthersIff | pagerank.py:40-47 | On a corpus the crawler has filtered, a page has `N-1` links exactly when it links to every other page. |
| Transitions.TransitionSumsToOneIffLinksToAll | pagerank.py:61-72 | On a corpus the crawler has filtered, the transition from a linked page sums to 1 if and only if `d == 1` or the page links to every other page. |
| Transitions.TransitionStaysInCorpus | pagerank.py:65-77 | On a well-formed corpus, every key of a transition is again a page the surfer can step from. |
| Transitions.DanglingOfTwo | pagerank.py:74-77 | In a two-page corpus, the dangling page sends the surfer to each page with probability 1/2. |
| Sampling.SamplePageRank | pagerank.py:80-100 | The result's keys are exactly the drawn pages, which are corpus pages. Each value is the number of times its page was drawn, divided by `n`. For `n >= 1` the values lie in `(0, 1]` and sum to 1. For `n <= 0` nothing is drawn and the result is empty. |
| Sampling.Walk | pagerank.py:93-96 | The sampling loop counts exactly the visits of the draws. Each draw is a key of the distribution current at that step. |
| Sampling.Step | pagerank.py:94-96 | In one turn, the drawn page is a key of the current distribution. It gets one more visit, and the transition from it becomes the next distribution. |
| Sampling.DivideAll | pagerank.py:97-98 | The keys are unchanged and every count is divided by `n`. |
| Sampling.VisitsTotal | pagerank.py:93-95 | The visit counts add up to the number of draws. |
| Sampling.FrequenciesAreDistribution | pagerank.py:93-98 | The visit frequencies of a non-empty walk sum to 1, and each lies in `(0, 1]`. |
| Sampling.WalkStaysInCorpus | pagerank.py:91-96 | On a corpus the crawler has filtered, draws that start at a corpus page and each follow the transition from the draw before form a walk. So every drawn page is a corpus page that the transition model accepts. |
| Sampling.WalkFollowsLinks | pagerank.py:94-96 | After a page with links, the walk goes to that page itself or to one of its links. |
| Sampling.WalkLeavesDanglingAnywhere | pagerank.py:74-77 | After a dangling page, any page of the corpus may come next. |
| Iteration.LinksToPage | pagerank.py:104-109 | The result is exactly the set of corpus pages whose links contain `page`. |
| Iteration.CheckConverged | pagerank.py:111-116 | The scan answers true if and only if no old rank moved by more than 0.001. |
| Iteration.ConvergenceBoundIsInclusive | pagerank.py:112-114 | In exact reals, a move of exactly 0.001 still counts as converged, because the program only answers false for a move greater than 0.001. A move of 0.0011 does not count as converged. |
| Iteration.SumOfRanks | pagerank.py:139-141 | The inner loop adds up exactly the old ranks of the linking pages. |
| Iteration.NewRank | pagerank.py:138-143 | A page with in-links gets `(1-d)/N + d` times the average old rank of its in-linking pages. Otherwise it is flagged as the division by zero. |
| Iteration.SweepOnce | pagerank.py:136-143 | One pass over the snapshot either yields the sweep of the old ranks or stops at a page without in-links. It succeeds exactly when every page has an in-link. |
| Iteration.SweepIsUnique | pagerank.py:136-143 | The sweep reads only the snapshot, so its outcome does not depend on the order in which pages are visited. |
| Iteration.UniformIsFixedPoint | pagerank.py:132-143 | One sweep maps the uniform ranks to themselves, for every graph in which each page has an in-link and for every damping factor. A second application of the update to the converged output therefore changes nothing. |
| Iteration.IteratePageRank | pagerank.py:119-145 | The iteration fails exactly when some page has no in-links. Otherwise it returns the sweep of the uniform start, which is the uniform ranks themselves and is converged with respect to its input. |
| Iteration.IteratedRanksSumToOne | pagerank.py:119-145 | On a non-empty corpus, the ranks the iteration returns sum to 1. |
| Iteration.UnreachedPageStopsIteration | pagerank.py:119-145 | `IteratePageRank` on the corpus where page "1" links to "2" and nothing links to "1" returns `DivisionByZero("1")`. |
| Iteration.TwoPageCycle | pagerank.py:119-145 | Two pages linking to each other with `d = 0.85` get rank 1/2 each. |

## Left out

- `main` (pagerank.py:11-22): argument handling, exiting and printing the
  ranks to four decimals. This is command-line plumbing.
- The I/O half of `crawl` (pagerank.py:31-39): listing the directory,
  reading the files and extracting `href` values with a regular expression.
  `Graph.NormaliseLinks` takes the extracted link sets as its input.
- `random.choices` (pagerank.py:94): the weighted draw is a library call. The
  drawn pages are an input sequence.
  - The precondition `Sampling.IsWalk` states what any such draw satisfies:
    each page is a key of the distribution it was drawn from.
  - How often each page is drawn, and any statistical convergence of the
    estimator, are not modelled.
- IEEE-754 rounding: probabilities are exact reals. The iteration's exit
  after one sweep rests on exact arithmetic. With floats, the differences
  are far below the tolerance.
- Iteration.ConvergenceBoundIsInclusive: holds for exact reals only. In
  doubles, `0.251 - 0.25` rounds to slightly above 0.001, so the program
  answers false for that pair.
- Transitions.TransitionModel: requires that the page does not link to
  itself. With a self-link, the program's loop rereads `pr[page]` after
  overwriting it, so the result depends on Python's set iteration order.
  The crawler's filter rules self-links out (`Graph.NormaliseLinks`).
- Missing keys: the program raises `KeyError` when the current page or a
  linking page is not a key. The model turns these cases into
  preconditions. Examples are `page in corpus`, and `old.Keys <= new.Keys`
  for `converged`.
- Iteration.IteratePageRank: which page without in-links the program hits
  first depends on dictionary order. The model only promises that the page
  it reports has no in-links.
- Mutation in place: the model rebinds map values instead of mutating shared
  dictionaries. No aliasing is possible in the program: `old_pr` is a deep
  copy, and every dictionary is local.

/**
  The link graph ("corpus"): every page of the corpus mapped to the set of
  pages it links to, and the filtering with which the crawler turns the
  links extracted from each HTML page into that graph.
 */
module Graph {

  /**
    The corpus: each page mapped to the set of pages it links to. Pages are
    named by their file names; the model only compares them for equality,
    so the page type is a parameter.
   */
  type Corpus<P> = map<P, set<P>>

  /** The invariant the crawler establishes: no page links to itself and every link names a page of the corpus. */
  predicate WellFormed<P>(corpus: Corpus<P>)
  {
    forall p :: p in corpus ==> p !in corpus[p] && corpus[p] <= corpus.Keys
  }

  /** What the transition model needs of the current page: it is a key of the corpus and not one of its own links. */
  predicate Steppable<P>(corpus: Corpus<P>, page: P)
  {
    page in corpus && page !in corpus[page]
  }

  /**
    The non-I/O tail of the crawler. `extracted` maps each HTML file of the
    directory to the set of href targets found in it. The first loop drops
    each page's link to itself, the second keeps only links that name a page
    of the corpus.
   */
  method NormaliseLinks<P>(extracted: Corpus<P>) returns (pages: Corpus<P>)
    ensures pages.Keys == extracted.Keys
    ensures WellFormed(pages)
    ensures forall p :: p in pages ==> pages[p] <= extracted[p]
    ensures forall p, link :: p in pages && link in extracted[p] && link != p && link in extracted ==> link in pages[p]
  {
    pages := map[];
    var todo := extracted.Keys;
    while todo != {}
      invariant todo <= extracted.Keys
      invariant pages.Keys == extracted.Keys - todo
      invariant forall p :: p in pages ==> pages[p] == extracted[p] - {p}
    {
      var filename :| filename in todo;
      pages := pages[filename := extracted[filename] - {filename}];
      todo := todo - {filename};
    }

    todo := pages.Keys;
    while todo != {}
      invariant todo <= pages.Keys
      invariant pages.Keys == extracted.Keys
      invariant forall p :: p in todo ==> pages[p] == extracted[p] - {p}
      invariant forall p :: p in pages && p !in todo ==> pages[p] == set link | link in extracted[p] && link != p && link in extracted
    {
      var filename :| filename in todo;
      pages := pages[filename := set link | link in pages[filename] && link in pages];
      todo := todo - {filename};
    }
  }
}

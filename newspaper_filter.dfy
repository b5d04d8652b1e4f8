/**
 * The home page's newspaper filter: a paper is listed when it belongs to the
 * active category (or the active category is "All") and its name or its
 * language contains the search query, compared in lower case.
 */
module NewspaperFilter {
  import opened JsString
  import opened Seqs

  /** The three categories a paper can carry. */
  datatype Category = National | Regional | International

  /** The category as the string the page compares against. */
  function CategoryName(c: Category): string {
    match c
    case National => "National"
    case Regional => "Regional"
    case International => "International"
  }

  /** The category-bar entry that switches the category test off. */
  const AllCategories: string := "All"

  /** A newspaper record as the catalogue holds it. */
  datatype Newspaper = Newspaper(
    id: string,
    name: string,
    language: string,
    region: string,
    category: Category,
    thumbnail: string,
    content: string,
    pdfUrl: string,
    articleUrl: string)

  /** The category test passes under "All" or when the paper carries the active category. */
  predicate MatchesCategory(p: Newspaper, active: string) {
    active == AllCategories || CategoryName(p.category) == active
  }

  /** The lower-cased name or language includes the lower-cased query. */
  predicate MatchesSearch(p: Newspaper, query: string) {
    Contains(Lower(p.name), Lower(query)) || Contains(Lower(p.language), Lower(query))
  }

  /** A paper is shown when both the category test and the search test pass. */
  predicate Shown(p: Newspaper, active: string, query: string) {
    MatchesCategory(p, active) && MatchesSearch(p, query)
  }

  /** The callback as a value, for one category and query. */
  function ShownUnder(active: string, query: string): Newspaper -> bool {
    p => Shown(p, active, query)
  }

  /** The papers the page lists, in catalogue order. */
  function FilteredPapers(papers: seq<Newspaper>, active: string, query: string): seq<Newspaper> {
    Filter(papers, ShownUnder(active, query))
  }

  /**
   * A paper is listed exactly when it is in the catalogue, its category
   * passes, and the lower-cased query occurs in its lower-cased name or
   * language.
   */
  lemma ListedExactly(papers: seq<Newspaper>, active: string, query: string)
    ensures forall p :: p in FilteredPapers(papers, active, query) <==>
      && p in papers
      && (active == AllCategories || CategoryName(p.category) == active)
      && (Contains(Lower(p.name), Lower(query)) || Contains(Lower(p.language), Lower(query)))
  {
    var r := FilteredPapers(papers, active, query);
    FilterMembers(papers, ShownUnder(active, query));
    forall p | p in r
      ensures p in papers && Shown(p, active, query)
    {
      var k :| 0 <= k < |r| && r[k] == p;
      assert ShownUnder(active, query)(r[k]);
    }
    forall p | p in papers && Shown(p, active, query)
      ensures p in r
    {
      var k :| 0 <= k < |papers| && papers[k] == p;
      assert ShownUnder(active, query)(papers[k]);
    }
  }

  /**
   * The listed papers appear in catalogue order, at exactly the catalogue
   * positions whose paper is shown, so a catalogue entry listed twice is
   * shown twice.
   */
  lemma ListedInOrder(papers: seq<Newspaper>, active: string, query: string) returns (idx: seq<nat>)
    ensures SubsequenceAt(FilteredPapers(papers, active, query), papers, idx)
    ensures forall k :: 0 <= k < |papers| ==> (Shown(papers[k], active, query) <==> k in idx)
  {
    idx := FilterIsSubsequence(papers, ShownUnder(active, query));
    forall k | 0 <= k < |papers|
      ensures Shown(papers[k], active, query) <==> k in idx
    {
      assert ShownUnder(active, query)(papers[k]) == Shown(papers[k], active, query);
    }
  }

  lemma EmptyQueryMatches(s: string)
    ensures Contains(s, "")
  {
    assert OccursAt(s, "", 0);
  }

  /** With "All" selected and an empty query, the whole catalogue is listed. */
  lemma AllAndEmptyListsEverything(papers: seq<Newspaper>)
    ensures FilteredPapers(papers, AllCategories, "") == papers
  {
    forall k | 0 <= k < |papers|
      ensures ShownUnder(AllCategories, "")(papers[k])
    {
      EmptyQueryMatches(Lower(papers[k].name));
    }
    FilterAll(papers, ShownUnder(AllCategories, ""));
  }

  /** Queries that agree once lower-cased list the same papers. */
  lemma QueryCaseIgnored(papers: seq<Newspaper>, active: string, q1: string, q2: string)
    requires Lower(q1) == Lower(q2)
    ensures FilteredPapers(papers, active, q1) == FilteredPapers(papers, active, q2)
  {
    FilterCongruent(papers, ShownUnder(active, q1), ShownUnder(active, q2));
  }

  /** In particular, lower-casing the query first changes nothing. */
  lemma LowerQueryListsAlike(papers: seq<Newspaper>, active: string, query: string)
    ensures FilteredPapers(papers, active, Lower(query)) == FilteredPapers(papers, active, query)
  {
    LowerIdempotent(query);
    QueryCaseIgnored(papers, active, Lower(query), query);
  }

  /** Under a category other than "All", every listed paper carries that category. */
  lemma OtherCategoriesHidden(papers: seq<Newspaper>, active: string, query: string)
    requires active != AllCategories
    ensures forall k :: 0 <= k < |FilteredPapers(papers, active, query)| ==>
      CategoryName(FilteredPapers(papers, active, query)[k].category) == active
  {
    var r := FilteredPapers(papers, active, query);
    forall k | 0 <= k < |r|
      ensures CategoryName(r[k].category) == active
    {
      assert ShownUnder(active, query)(r[k]);
    }
  }
}

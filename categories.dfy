/** The category search of the categories screen: the list of categories
    narrowed, case-insensitively, to those whose title contains the search
    term. */
module Categories {
  import opened Text
  import opened Seqs

  /** A category as the search sees it (its image is irrelevant here). */
  datatype Category = Category(id: string, title: string)

  /** The categories the app ships with. */
  const AppCategories: seq<Category> := [Category("1", "Italian"), Category("2", "Asian")]

  /** The test applied to each category: its lower-cased title includes the
      lower-cased search term. */
  predicate Matches(searchTerm: string, c: Category)
    ensures Matches(searchTerm, c) <==> exists i :: OccursAt(ToLower(searchTerm), ToLower(c.title), i)
  {
    Contains(ToLower(c.title), ToLower(searchTerm))
  }

  /** `Matches` with the search term fixed, as the callback given to `filter`. */
  function MatchesTerm(searchTerm: string): Category -> bool {
    c => Matches(searchTerm, c)
  }

  /** `filteredCategories`: the categories whose title matches the search
      term, in their original order. */
  function FilterCategories(categories: seq<Category>, searchTerm: string): (r: seq<Category>)
    ensures forall c :: c in r <==>
      c in categories && exists i :: OccursAt(ToLower(searchTerm), ToLower(c.title), i)
  {
    Filter(categories, MatchesTerm(searchTerm))
  }

  /** Order: the result is the input read at the strictly increasing
      positions `KeptIndicesFrom(categories, MatchesTerm(searchTerm), 0)`,
      each of which holds a matching category — input order is kept and
      nothing is added, repeated or reordered. */
  lemma FilterCategoriesKeepsOrder(categories: seq<Category>, searchTerm: string)
    ensures var r, idx := FilterCategories(categories, searchTerm), KeptIndicesFrom(categories, MatchesTerm(searchTerm), 0);
      && |r| == |idx|
      && (forall k :: 0 <= k < |r| ==> r[k] == categories[idx[k]] && Matches(searchTerm, r[k]))
  {
    FilterSelectsKeptIndices(categories, MatchesTerm(searchTerm));
  }

  /** Those positions are exactly the positions of matching categories: no
      match is dropped. */
  lemma FilterCategoriesPositions(categories: seq<Category>, searchTerm: string)
    ensures forall i :: 0 <= i < |categories| ==>
      (Matches(searchTerm, categories[i]) <==> i in KeptIndicesFrom(categories, MatchesTerm(searchTerm), 0))
  {
    KeptIndicesExact(categories, MatchesTerm(searchTerm));
  }

  /** Every copy of a matching category is kept, every copy of another is
      dropped. */
  lemma FilterCategoriesCounts(categories: seq<Category>, searchTerm: string, c: Category)
    ensures multiset(FilterCategories(categories, searchTerm))[c] ==
      if Matches(searchTerm, c) then multiset(categories)[c] else 0
  {
    FilterCounts(categories, MatchesTerm(searchTerm), c);
  }

  /** The initial, empty search term shows every category, unchanged. */
  lemma EmptySearchShowsAll(categories: seq<Category>)
    ensures FilterCategories(categories, "") == categories
  {
    assert ToLower("") == "";
    forall c | c in categories ensures MatchesTerm("")(c) {
      ContainsEmpty(ToLower(c.title));
    }
    FilterKeepsAll(categories, MatchesTerm(""));
  }

  /** Search terms that differ only in letter case give the same result. */
  lemma SearchIgnoresCase(categories: seq<Category>, a: string, b: string)
    requires SameIgnoringCase(a, b)
    ensures FilterCategories(categories, a) == FilterCategories(categories, b)
  {
    SameIgnoringCaseIffSameLower(a, b);
    FilterAgreeing(categories, MatchesTerm(a), MatchesTerm(b));
  }

  /** Typing more characters only narrows the list: filtering the current
      result by the longer term is the same as filtering everything by it. */
  lemma LongerSearchNarrows(categories: seq<Category>, t: string, u: string)
    ensures FilterCategories(FilterCategories(categories, t), t + u) == FilterCategories(categories, t + u)
  {
    ToLowerConcat(t, u);
    forall c ensures MatchesTerm(t + u)(c) ==> MatchesTerm(t)(c) {
      if Matches(t + u, c) {
        ContainsPrefix(ToLower(c.title), ToLower(t), ToLower(u));
      }
    }
    FilterRefine(categories, MatchesTerm(t + u), MatchesTerm(t));
  }

  /** Searching the shipped categories for "ital" finds Italian only. */
  lemma SearchItalFindsItalian()
    ensures FilterCategories(AppCategories, "ital") == [Category("1", "Italian")]
  {
    assert ToLower("Italian") == "italian";
    assert ToLower("Asian") == "asian";
    assert ToLower("ital") == "ital";
    assert OccursAt("ital", "italian", 0);
    MissingCharNotContained("asian", "ital", 3);
  }

  /** Searching for "ASIAN" finds Asian only: the search ignores case. */
  lemma SearchUpperAsianFindsAsian()
    ensures FilterCategories(AppCategories, "ASIAN") == [Category("2", "Asian")]
  {
    assert ToLower("Italian") == "italian";
    assert ToLower("Asian") == "asian";
    assert ToLower("ASIAN") == "asian";
    assert OccursAt("asian", "asian", 0);
    MissingCharNotContained("italian", "asian", 1);
  }

  /** A term that no title contains finds nothing. */
  lemma SearchXyzFindsNothing()
    ensures FilterCategories(AppCategories, "xyz") == []
  {
    assert ToLower("Italian") == "italian";
    assert ToLower("Asian") == "asian";
    assert ToLower("xyz") == "xyz";
    MissingCharNotContained("italian", "xyz", 0);
    MissingCharNotContained("asian", "xyz", 0);
  }
}

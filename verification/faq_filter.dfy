/** The FAQ page's search and category filter: `filteredFaqs` keeps the FAQs
    whose question or some tag contains the search term, ignoring case, and,
    when a category is selected, whose category id is the selected one. */
module FaqFilter {
  import opened Wrappers
  import opened FaqTypes
  import opened JsString
  import opened JsArray

  /** `tag.toLowerCase().includes(needle)` */
  predicate TagMatches(needle: string, tag: string)
    ensures TagMatches(needle, tag) <==> exists i :: OccursAt(ToLowerCase(tag), needle, i)
  {
    IncludesIff(ToLowerCase(tag), needle);
    Includes(ToLowerCase(tag), needle)
  }

  /** The search test: the empty term matches everything; otherwise the
      lower-cased question, or some lower-cased tag, must include the
      lower-cased term. `tags?.some(...)` is `undefined`, hence false, when
      the FAQ has no tags. */
  predicate MatchesSearch(faq: Faq, searchTerm: string)
    ensures searchTerm == "" ==> MatchesSearch(faq, searchTerm)
    ensures Includes(ToLowerCase(faq.question), ToLowerCase(searchTerm)) ==> MatchesSearch(faq, searchTerm)
    ensures faq.tags.None? ==>
      (MatchesSearch(faq, searchTerm) <==> searchTerm == "" || Includes(ToLowerCase(faq.question), ToLowerCase(searchTerm)))
  {
    var needle := ToLowerCase(searchTerm);
    || searchTerm == ""
    || Includes(ToLowerCase(faq.question), needle)
    || (faq.tags.Some? && Any(faq.tags.value, tag => TagMatches(needle, tag)))
  }

  /** The category test `!selectedCategory || faq.category?._id === selectedCategory`:
      no selection (`null`, or the falsy empty string) passes everything;
      otherwise the FAQ's category must be present and carry exactly that id. */
  predicate MatchesCategory(faq: Faq, selected: Option<string>)
    ensures selected.None? ==> MatchesCategory(faq, selected)
    ensures selected.Some? && selected.value != "" ==>
      (MatchesCategory(faq, selected) <==> faq.category.Some? && faq.category.value.id == selected)
  {
    || selected.None?
    || selected.value == ""
    || (faq.category.Some? && faq.category.value.id == Some(selected.value))
  }

  /** The predicate handed to `faqs.filter`. */
  function Keep(searchTerm: string, selected: Option<string>): (keep: Faq -> bool)
    ensures forall faq :: keep(faq) <==> MatchesSearch(faq, searchTerm) && MatchesCategory(faq, selected)
  {
    faq => MatchesSearch(faq, searchTerm) && MatchesCategory(faq, selected)
  }

  /** `filteredFaqs` */
  function Filtered(faqs: seq<Faq>, searchTerm: string, selected: Option<string>): (shown: seq<Faq>)
    ensures |shown| <= |faqs|
    ensures forall f :: f in shown ==>
      f in faqs && MatchesSearch(f, searchTerm) && MatchesCategory(f, selected)
  {
    Filter(faqs, Keep(searchTerm, selected))
  }

  /** The filtered list is the order-preserving subsequence of `faqs` at
      exactly the positions whose FAQ passes both the search and the category
      test. */
  lemma FilteredIsExactSubsequence(faqs: seq<Faq>, searchTerm: string, selected: Option<string>)
    ensures Embeds(Filtered(faqs, searchTerm, selected), faqs, KeptIndices(faqs, Keep(searchTerm, selected)))
    ensures forall i :: 0 <= i < |faqs| ==>
      (i in KeptIndices(faqs, Keep(searchTerm, selected)) <==>
        MatchesSearch(faqs[i], searchTerm) && MatchesCategory(faqs[i], selected))
  {
    FilterEmbeds(faqs, Keep(searchTerm, selected));
  }

  /** An FAQ value is in the filtered list if and only if it is in the input
      and passes both tests. */
  lemma FilteredContains(faqs: seq<Faq>, searchTerm: string, selected: Option<string>, faq: Faq)
    ensures faq in Filtered(faqs, searchTerm, selected) <==>
      faq in faqs && MatchesSearch(faq, searchTerm) && MatchesCategory(faq, selected)
  {
    FilterContains(faqs, Keep(searchTerm, selected), faq);
  }

  /** With an empty search term and no selected category the page shows
      every FAQ, in the fetched order. */
  lemma FilteredWithoutCriteria(faqs: seq<Faq>)
    ensures Filtered(faqs, "", None) == faqs
  {
    FilterKeepsAll(faqs, Keep("", None));
  }

  /** Once a (non-empty) category id is selected, every kept FAQ has a
      category with that id, so FAQs without a category, or whose category
      carries no id, are dropped; every FAQ with that id that matches the
      search is kept. */
  lemma SelectedCategoryExact(faqs: seq<Faq>, searchTerm: string, categoryId: string, faq: Faq)
    requires categoryId != ""
    ensures faq in Filtered(faqs, searchTerm, Some(categoryId)) <==>
      && faq in faqs
      && MatchesSearch(faq, searchTerm)
      && faq.category.Some?
      && faq.category.value.id == Some(categoryId)
  {
    FilteredContains(faqs, searchTerm, Some(categoryId), faq);
  }

  /** The search test as a substring statement: a non-empty term matches
      when it occurs, ignoring case, in the question or in one of the tags. */
  lemma SearchIsSubstringTest(faq: Faq, searchTerm: string)
    ensures MatchesSearch(faq, searchTerm) <==>
      || searchTerm == ""
      || (exists i :: OccursAt(ToLowerCase(faq.question), ToLowerCase(searchTerm), i))
      || (faq.tags.Some? &&
          (exists k :: 0 <= k < |faq.tags.value| &&
             Includes(ToLowerCase(faq.tags.value[k]), ToLowerCase(searchTerm))))
  {
    var needle := ToLowerCase(searchTerm);
    IncludesIff(ToLowerCase(faq.question), needle);
    if faq.tags.Some? {
      AnyIff(faq.tags.value, tag => TagMatches(needle, tag));
    }
  }

  /** An FAQ without tags (missing or empty list) can only match through its
      question. */
  lemma UntaggedMatchesByQuestionOnly(faq: Faq, searchTerm: string)
    requires faq.tags == None || faq.tags == Some([])
    ensures MatchesSearch(faq, searchTerm) <==>
      searchTerm == "" || Includes(ToLowerCase(faq.question), ToLowerCase(searchTerm))
  {
  }

  /** The search ignores case: lower-casing the search term or the question
      does not change the outcome, and two terms that agree up to case
      select the same FAQs. */
  lemma SearchIgnoresCase(faq: Faq, searchTerm: string, other: string)
    requires ToLowerCase(other) == ToLowerCase(searchTerm)
    ensures MatchesSearch(faq, other) == MatchesSearch(faq, searchTerm)
    ensures MatchesSearch(faq, ToLowerCase(searchTerm)) == MatchesSearch(faq, searchTerm)
    ensures MatchesSearch(faq.(question := ToLowerCase(faq.question)), searchTerm) == MatchesSearch(faq, searchTerm)
  {
    ToLowerCaseIdempotent(searchTerm);
    ToLowerCaseIdempotent(faq.question);
  }

  /** The `searchTerm === ''` shortcut changes nothing: every string includes
      the empty string, so the empty term already matches through the
      question. */
  lemma EmptyTermShortcutRedundant(faq: Faq, searchTerm: string)
    ensures MatchesSearch(faq, searchTerm) <==>
      || Includes(ToLowerCase(faq.question), ToLowerCase(searchTerm))
      || (faq.tags.Some? && Any(faq.tags.value, tag => TagMatches(ToLowerCase(searchTerm), tag)))
  {
    if searchTerm == "" {
      assert ToLowerCase(searchTerm) == "";
      IncludesEmpty(ToLowerCase(faq.question));
    }
  }
}

/** The state of the FAQ page component and its event handlers. React's
    `useState` slots are fields; each `setX` call is a field assignment. */
module FaqPage {
  import opened Wrappers
  import opened FaqTypes
  import opened JsSet
  import opened FaqFilter

  /** The expanded set after flipping `id`'s membership. */
  function Toggled(expanded: set<string>, id: string): (r: set<string>)
    ensures id in r <==> id !in expanded
    ensures forall x :: x != id ==> (x in r <==> x in expanded)
  {
    if id in expanded then expanded - {id} else expanded + {id}
  }

  /** Toggling the same id twice restores the original set. */
  lemma ToggledTwice(expanded: set<string>, id: string)
    ensures Toggled(Toggled(expanded, id), id) == expanded
  {
  }

  class Page {
    var faqs: seq<Faq>
    var categories: seq<FaqCategory>
    var searchTerm: string
    var selectedCategory: Option<string>
    var expandedItems: StringSet
    var loading: bool

    /** The initial state: nothing loaded yet, no search, no category,
        nothing expanded, loading. */
    constructor ()
      ensures faqs == [] && categories == [] && searchTerm == "" && selectedCategory == None
      ensures fresh(expandedItems) && expandedItems.elems == {}
      ensures loading
    {
      faqs := [];
      categories := [];
      searchTerm := "";
      selectedCategory := None;
      expandedItems := new StringSet.Empty();
      loading := true;
    }

    /** Both fetches succeeded: store the data and stop loading. */
    method Loaded(faqsData: seq<Faq>, categoriesData: seq<FaqCategory>)
      modifies this`faqs, this`categories, this`loading
      ensures faqs == faqsData && categories == categoriesData && !loading
    {
      faqs := faqsData;
      categories := categoriesData;
      loading := false;
    }

    /** A fetch failed: the error is logged, the data stays as it was, and
        loading stops. */
    method LoadFailed()
      modifies this`loading
      ensures !loading
    {
      loading := false;
    }

    /** The search box's `onChange`. */
    method SetSearchTerm(value: string)
      modifies this`searchTerm
      ensures searchTerm == value
    {
      searchTerm := value;
    }

    /** The category buttons: "All Categories" selects `None`, a category
        button selects that category's id. */
    method SelectCategory(categoryId: Option<string>)
      modifies this`selectedCategory
      ensures selectedCategory == categoryId
    {
      selectedCategory := categoryId;
    }

    /** `toggleExpanded`: copy the expanded set, flip `id` in the copy, and
        replace the state with the copy. The previous set object is left as
        it was; only the field now points at a fresh set. */
    method ToggleExpanded(id: string)
      modifies this`expandedItems
      ensures fresh(expandedItems)
      ensures expandedItems.elems == Toggled(old(expandedItems.elems), id)
      ensures unchanged(old(expandedItems))
    {
      var newExpanded := new StringSet.Copy(expandedItems);
      if newExpanded.Has(id) {
        var _ := newExpanded.Delete(id);
      } else {
        newExpanded.Add(id);
      }
      expandedItems := newExpanded;
    }

    /** Whether an FAQ's answer is shown. */
    function IsExpanded(id: string): (shown: bool)
      reads this, expandedItems
      ensures shown <==> id in expandedItems.elems
    {
      expandedItems.Has(id)
    }

    /** The FAQs the page currently shows: only loaded FAQs passing the
        current search and category, and all of them when neither is set. */
    function FilteredFaqs(): (shown: seq<Faq>)
      reads this
      ensures forall f :: f in shown ==>
        f in faqs && MatchesSearch(f, searchTerm) && MatchesCategory(f, selectedCategory)
      ensures searchTerm == "" && selectedCategory == None ==> shown == faqs
    {
      FilteredWithoutCriteria(faqs);
      Filtered(faqs, searchTerm, selectedCategory)
    }
  }

  /** Two clicks on the same FAQ leave the page's expanded set as it was;
      nothing else on the page changes. */
  method ClickTwice(page: Page, id: string)
    modifies page`expandedItems
    ensures page.expandedItems.elems == old(page.expandedItems.elems)
    ensures page.faqs == old(page.faqs) && page.searchTerm == old(page.searchTerm)
    ensures page.selectedCategory == old(page.selectedCategory)
  {
    page.ToggleExpanded(id);
    page.ToggleExpanded(id);
    ToggledTwice(old(page.expandedItems.elems), id);
  }
}

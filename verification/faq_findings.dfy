/** Two places where the FAQ page, as written, does not do what it evidently
    intends. Each is modelled as written, with an input that exhibits it,
    next to the intended behaviour that the rest of the model uses. */
module FaqFindings {
  import opened Wrappers
  import opened FaqTypes
  import opened JsArray
  import opened FaqFilter
  import opened FaqGrouping

  // ---------------------------------------------------------------------
  // 1. The grouping accumulator is a plain object literal `{}`.
  // ---------------------------------------------------------------------

  /** The property names a plain object inherits from `Object.prototype`.
      Reading any of them on `{}` yields a function or an object, never
      `undefined`. */
  const ObjectPrototypeKeys: set<string> := {
    "constructor", "hasOwnProperty", "isPrototypeOf", "propertyIsEnumerable",
    "toString", "toLocaleString", "valueOf", "__proto__",
    "__defineGetter__", "__defineSetter__", "__lookupGetter__", "__lookupSetter__"
  }

  /** The reduce as written, over a record whose own keys are `acc`'s keys.
      For a title that is not an own key, `acc[title]` falls through to the
      prototype: for an inherited name it is truthy, so no array is created,
      and `acc[title].push` is not a function, so the reduce throws (`None`). */
  function ReduceAsWritten(fs: seq<Faq>): (acc: Option<map<string, seq<Faq>>>)
    ensures acc.None? ==> exists i :: 0 <= i < |fs| && GroupTitle(fs[i]) in ObjectPrototypeKeys
    ensures (exists i :: 0 <= i < |fs| && GroupTitle(fs[i]) in ObjectPrototypeKeys) ==> acc.None?
    ensures acc.Some? ==> forall t :: t in acc.value ==> acc.value[t] != [] && t !in ObjectPrototypeKeys
    decreases |fs|
  {
    if fs == [] then Some(map[])
    else
      assert forall i :: 0 <= i < |fs| - 1 ==> fs[..|fs| - 1][i] == fs[i];
      match ReduceAsWritten(fs[..|fs| - 1])
      case None => None
      case Some(acc) =>
        var faq := fs[|fs| - 1];
        var title := GroupTitle(faq);
        if title in acc then Some(acc[title := acc[title] + [faq]])
        else if title in ObjectPrototypeKeys then None
        else Some(acc[title := [faq]])
  }

  /** A single FAQ filed under a category titled "constructor". */
  const ConstructorFaq: Faq :=
    Faq("faq-1", "How do I build it?", Some(FaqCategory(Some("cat-1"), Some("constructor"))), None)

  /** As written, that FAQ makes the page's grouping throw. */
  lemma PrototypeTitleThrows()
    ensures ReduceAsWritten([ConstructorFaq]) == None
  {
    assert [ConstructorFaq][..0] == [];
  }

  /** The intended grouping files it under its own title. */
  lemma PrototypeTitleGroupedAsIntended()
    ensures Titles([ConstructorFaq]) == ["constructor"]
    ensures Group([ConstructorFaq], "constructor") == [ConstructorFaq]
  {
    assert [ConstructorFaq][..0] == [];
  }

  /** Away from inherited names the reduce as written computes the intended
      groups: the titles' groups and nothing else. */
  lemma {:induction false} ReduceAsWrittenAgrees(fs: seq<Faq>)
    requires forall i :: 0 <= i < |fs| ==> GroupTitle(fs[i]) !in ObjectPrototypeKeys
    ensures ReduceAsWritten(fs).Some?
    ensures forall t :: t in ReduceAsWritten(fs).value <==> t in Titles(fs)
    ensures forall t :: t in ReduceAsWritten(fs).value ==> ReduceAsWritten(fs).value[t] == Group(fs, t)
    decreases |fs|
  {
    if fs != [] {
      var n := |fs| - 1;
      var init, faq := fs[..n], fs[n];
      assert fs == init + [faq];
      ReduceAsWrittenAgrees(init);
      TitlesSnoc(init, faq);
      var acc := ReduceAsWritten(init).value;
      var title := GroupTitle(faq);
      forall t | t in ReduceAsWritten(fs).value
        ensures ReduceAsWritten(fs).value[t] == Group(fs, t)
      {
        FilterSnoc(init, faq, HasTitle(t));
        if t == title && title !in acc {
          GroupEmptyUnlessTitle(init, title);
        }
      }
    }
  }

  // ---------------------------------------------------------------------
  // 2. The FAQ query does not fetch the category's id.
  // ---------------------------------------------------------------------

  /** A stored FAQ category document. */
  datatype CategoryDoc = CategoryDoc(id: string, title: string)

  /** A stored FAQ document: its category is a reference by document id. */
  datatype FaqDoc = FaqDoc(id: string, question: string, categoryRef: Option<string>, tags: Option<seq<string>>)

  /** The category store, keyed by document id. */
  ghost predicate WellKeyed(store: map<string, CategoryDoc>) {
    forall k :: k in store ==> store[k].id == k
  }

  /** The FAQ as the page receives it when the query dereferences the
      category with `includeId` deciding whether `_id` is among the projected
      fields; a dangling or unset reference gives no category. */
  function Receive(doc: FaqDoc, store: map<string, CategoryDoc>, includeId: bool): (faq: Faq)
    ensures faq.id == doc.id && faq.question == doc.question && faq.tags == doc.tags
    ensures faq.category.Some? <==> doc.categoryRef.Some? && doc.categoryRef.value in store
  {
    var category :=
      match doc.categoryRef
      case Some(ref) =>
        if ref in store
        then Some(FaqCategory(if includeId then Some(store[ref].id) else None, Some(store[ref].title)))
        else None
      case None => None;
    Faq(doc.id, doc.question, category, doc.tags)
  }

  /** As written: the projection `category->{title, slug, icon}` leaves out `_id`. */
  function ReceivedAsQueried(docs: seq<FaqDoc>, store: map<string, CategoryDoc>): (faqs: seq<Faq>)
    ensures |faqs| == |docs|
    ensures forall i :: 0 <= i < |faqs| ==> faqs[i].category.Some? ==> faqs[i].category.value.id == None
  {
    seq(|docs|, i requires 0 <= i < |docs| => Receive(docs[i], store, false))
  }

  /** Corrected: the projection also carries the category's `_id`. */
  function ReceivedWithId(docs: seq<FaqDoc>, store: map<string, CategoryDoc>): (faqs: seq<Faq>)
    ensures |faqs| == |docs|
    ensures forall i :: 0 <= i < |faqs| ==> faqs[i].id == docs[i].id
    ensures forall i :: 0 <= i < |faqs| && faqs[i].category.Some? ==>
      && docs[i].categoryRef.Some?
      && docs[i].categoryRef.value in store
      && faqs[i].category.value.id == Some(store[docs[i].categoryRef.value].id)
  {
    seq(|docs|, i requires 0 <= i < |docs| => Receive(docs[i], store, true))
  }

  /** As written, selecting any category empties the list, whatever the
      search term and whatever the FAQs' categories. */
  lemma SelectingCategoryHidesEverything(docs: seq<FaqDoc>, store: map<string, CategoryDoc>,
                                         searchTerm: string, categoryId: string)
    requires categoryId != ""
    ensures Filtered(ReceivedAsQueried(docs, store), searchTerm, Some(categoryId)) == []
  {
    var faqs := ReceivedAsQueried(docs, store);
    FilterKeepsNone(faqs, Keep(searchTerm, Some(categoryId)));
  }

  /** Corrected, selecting a category keeps, among the FAQs matching the
      search, exactly those whose category reference resolves to that
      category. */
  lemma SelectingCategoryKeepsItsFaqs(docs: seq<FaqDoc>, store: map<string, CategoryDoc>,
                                      searchTerm: string, categoryId: string)
    requires WellKeyed(store)
    requires categoryId != ""
    ensures var faqs := ReceivedWithId(docs, store);
      forall i :: 0 <= i < |docs| ==>
        (i in KeptIndices(faqs, Keep(searchTerm, Some(categoryId))) <==>
          MatchesSearch(faqs[i], searchTerm) && docs[i].categoryRef == Some(categoryId) && categoryId in store)
  {
    FilteredIsExactSubsequence(ReceivedWithId(docs, store), searchTerm, Some(categoryId));
  }
}

# FAQ page state logic

A model of the client-side logic of the FAQ page of a CMS-backed marketing site
(`app/faq/page.tsx`). Once the FAQ documents are loaded, the page keeps four pieces of
state: the FAQs, a search term, an optional selected category id, and the set of FAQ ids
whose answers are expanded. From that state it derives what it shows:

- **toggle**: clicking a question copies the expanded set, flips that id's membership in
  the copy, and replaces the state with the copy;
- **filter**: the FAQs whose question or any tag contains the search term, ignoring case,
  restricted to the selected category's id when one is selected;
- **group**: a reduce over the filtered FAQs into a record from category title (or
  `General`) to the FAQs with that title, listed in the record's key order.

Modules, one per concern:

| file | module | what it holds |
|---|---|---|
| `wrappers.dfy` | `Wrappers` | `Option`, for JavaScript's `null`/`undefined` |
| `js_array.dfy` | `JsArray` | `Array.prototype.filter` and `some`, with their exact specifications |
| `js_string.dfy` | `JsString` | `toLowerCase` (ASCII) and `includes`, with the substring characterisation |
| `js_set.dfy` | `JsSet` | a mutable `Set<string>` class: copy, `has`, `add`, `delete` |
| `faq_types.dfy` | `FaqTypes` | the `FAQ` and `FAQCategory` records as the page receives them |
| `faq_filter.dfy` | `FaqFilter` | the search and category tests and `filteredFaqs` |
| `faq_grouping.dfy` | `FaqGrouping` | the title key, the `groupedFaqs` reduce as a loop, and what it computes |
| `faq_page.dfy` | `FaqPage` | the page component's state as a class and its event handlers |
| `faq_findings.dfy` | `FaqFindings` | the two defects below, as written and corrected |

The toggle is imperative, as in the source: `FaqPage.Page.ToggleExpanded` allocates a new
`JsSet.StringSet` from the old one, edits the copy in place and assigns it to the field; its
contract says the new set is fresh, holds the toggled contents, and the old set object is
unchanged. The filter is a pure function. The grouping reduce is a loop that creates a key
the first time a title is seen and pushes each FAQ onto its key's array; it is proved
against the specification functions `Titles` (keys in first-appearance order) and `Group`
(the FAQs with one title, in order).

## Model

| member | source | states |
|---|---|---|
| `FaqPage.Toggled` | app/faq/page.tsx:36-41 | the toggled id's membership is flipped and every other id's membership is unchanged |
| `FaqPage.Page.ToggleExpanded` | app/faq/page.tsx:35-43 | the expanded set is replaced by a freshly allocated copy with the id flipped; the previous set object is left unmodified |
| `FaqPage.ClickTwice` | app/faq/page.tsx:35-43 | two clicks on the same FAQ restore the expanded set; only the expanded-set field may change, so no other state does |
| `FaqPage.ToggledTwice` | app/faq/page.tsx:36-41 | toggling the same id twice gives back the original set |
| `FaqPage.Page.IsExpanded` | app/faq/page.tsx:159-163 | an FAQ's answer is shown exactly when its id is in the current expanded set |
| `FaqPage.Page.FilteredFaqs` | app/faq/page.tsx:45-53 | the shown FAQs are loaded FAQs passing the current search and category tests, and all of them when neither is set |
| `FaqPage.Page.constructor` | app/faq/page.tsx:10-15 | initial state: no FAQs, no categories, empty search, no category, nothing expanded, loading |
| `FaqPage.Page.Loaded` | app/faq/page.tsx:20-29 | after both fetches succeed the FAQs and categories are stored and loading stops |
| `FaqPage.Page.LoadFailed` | app/faq/page.tsx:26-29 | after a failed fetch only the loading flag changes, to false |
| `FaqPage.Page.SetSearchTerm` | app/faq/page.tsx:86 | the search term becomes the input's value |
| `FaqPage.Page.SelectCategory` | app/faq/page.tsx:96-108 | the selected category becomes `None` ("All Categories") or the clicked category's id |
| `JsSet.StringSet.Empty` | app/faq/page.tsx:14 | `new Set()` has no members |
| `JsSet.StringSet.Has` | app/faq/page.tsx:37 | `has` holds exactly for members |
| `JsSet.StringSet.Copy` | app/faq/page.tsx:36 | `new Set(old)` holds exactly the old set's members |
| `JsSet.StringSet.Add` | app/faq/page.tsx:40 | `add` inserts the id and nothing else |
| `JsSet.StringSet.Delete` | app/faq/page.tsx:38 | `delete` removes the id, reporting whether it was present |
| `JsString.ToLowerCase` | app/faq/page.tsx:47-48 | lower-casing keeps the length, maps each `A`..`Z` to the letter 32 code points above (`a`..`z`), leaves no upper-case letter and changes no other character |
| `JsString.ToLowerCaseIdempotent` | app/faq/page.tsx:47-48 | lower-casing twice is lower-casing once |
| `JsString.Includes` | app/faq/page.tsx:47-48 | a needle longer than the string is never included, and the empty needle always is |
| `JsString.IncludesIff` | app/faq/page.tsx:47-48 | `includes` holds exactly when the needle occurs at some position of the string |
| `JsString.IncludesEmpty` | app/faq/page.tsx:46-47 | every string includes the empty string |
| `JsArray.Filter` | app/faq/page.tsx:45 | the filtered array is no longer than the input and holds only input elements that pass the predicate |
| `JsArray.FilterEmbeds` | app/faq/page.tsx:45 | `filter` returns the input read at exactly the positions whose element passes, in increasing order |
| `JsArray.FilterContains` | app/faq/page.tsx:45 | an element is in the result iff it is in the input and passes |
| `JsArray.Any` | app/faq/page.tsx:48 | `some` is true only when some element satisfies the predicate |
| `JsArray.AnyIff` | app/faq/page.tsx:48 | `some` holds iff some position's element satisfies the predicate |
| `FaqFilter.MatchesSearch` | app/faq/page.tsx:46-48 | the empty term matches, a term included (ignoring case) in the question matches, and an FAQ without tags matches only through its question |
| `FaqFilter.MatchesCategory` | app/faq/page.tsx:50 | with no selection every FAQ passes; with a non-empty id selected, exactly the FAQs whose category carries that id pass |
| `FaqFilter.TagMatches` | app/faq/page.tsx:48 | a tag matches iff the lower-cased term occurs at some position of its lower-cased form |
| `FaqFilter.Keep` | app/faq/page.tsx:45-53 | the filter callback keeps an FAQ iff it passes both the search and the category test |
| `FaqFilter.Filtered` | app/faq/page.tsx:45-53 | `filteredFaqs` is no longer than the FAQ list and holds only FAQs from it that pass both tests |
| `FaqFilter.FilteredIsExactSubsequence` | app/faq/page.tsx:45-53 | the filtered list is the order-preserving subsequence at exactly the FAQs passing both the search and the category test |
| `FaqFilter.FilteredContains` | app/faq/page.tsx:45-53 | an FAQ is shown iff it is among the FAQs and passes both tests |
| `FaqFilter.FilteredWithoutCriteria` | app/faq/page.tsx:46-50 | with an empty search term and no category selected, every FAQ is shown in fetched order |
| `FaqFilter.SelectedCategoryExact` | app/faq/page.tsx:50 | with a category selected, an FAQ is shown iff it matches the search and has a category whose id is the selected one; FAQs without a category are dropped |
| `FaqFilter.SearchIsSubstringTest` | app/faq/page.tsx:46-48 | a non-empty term matches iff its lower-cased form occurs in the lower-cased question or in some lower-cased tag |
| `FaqFilter.UntaggedMatchesByQuestionOnly` | app/faq/page.tsx:47-48 | an FAQ with missing or empty tags matches only through its question |
| `FaqFilter.SearchIgnoresCase` | app/faq/page.tsx:47-48 | terms equal up to case select the same FAQs, and lower-casing the term or the question changes nothing |
| `FaqFilter.EmptyTermShortcutRedundant` | app/faq/page.tsx:46-48 | the `searchTerm === ''` shortcut agrees with the substring test alone |
| `FaqGrouping.GroupTitle` | app/faq/page.tsx:56 | the key is the category's title when it is present and non-empty, otherwise `General`; it is never empty |
| `FaqGrouping.Titles` | app/faq/page.tsx:55-62 | the group keys are distinct, cover every FAQ's title, and each is some FAQ's title |
| `FaqGrouping.GroupByTitle` | app/faq/page.tsx:55-62 | the reduce yields exactly the keys `Titles`, in insertion order, each mapped to the non-empty, in-order list of FAQs with that title |
| `FaqGrouping.AccumulateStep` | app/faq/page.tsx:57-60 | creating a missing key and pushing one FAQ turns the accumulator of a prefix into that of the prefix extended by the FAQ |
| `FaqGrouping.FirstIndex` | app/faq/page.tsx:139 | the position of the first FAQ with a given title, or the length when there is none |
| `FaqGrouping.FirstIndexSnoc` | app/faq/page.tsx:57-58 | a title already seen keeps its first position when the list grows; a new title first appears at the added FAQ |
| `FaqGrouping.OrderedPair` | app/faq/page.tsx:139 | of any two group keys, the one listed earlier first appears earlier among the FAQs |
| `FaqGrouping.TitlesInFirstAppearanceOrder` | app/faq/page.tsx:139 | groups are listed in the order their titles first appear among the filtered FAQs |
| `FaqGrouping.EachFaqInExactlyOneGroup` | app/faq/page.tsx:55-62 | each FAQ is in its own title's group and in no other group |
| `FaqGrouping.GroupKeepsOrder` | app/faq/page.tsx:55-62 | a group is the filtered list read at the increasing positions of exactly the FAQs with that title |
| `FaqGrouping.GroupNonEmpty` | app/faq/page.tsx:57-60 | no key exists without at least one FAQ pushed onto it |
| `FaqGrouping.GroupSizesSum` | app/faq/page.tsx:55-62 | the group sizes add up to the number of filtered FAQs |
| `FaqFindings.ReduceAsWritten` | app/faq/page.tsx:55-62 | the reduce as written throws exactly when some FAQ's title is an inherited `Object.prototype` name; otherwise every key it creates is an own, non-inherited name with a non-empty array |
| `FaqFindings.ReduceAsWrittenAgrees` | app/faq/page.tsx:55-62 | when no title is an inherited `Object.prototype` name, the reduce as written builds exactly the intended groups |
| `FaqFindings.PrototypeTitleThrows` | app/faq/page.tsx:57-60 | an FAQ in a category titled `constructor` makes the reduce as written throw |
| `FaqFindings.PrototypeTitleGroupedAsIntended` | app/faq/page.tsx:55-62 | the intended grouping files that FAQ under `constructor` |
| `FaqFindings.Receive` | sanity/lib/queries.ts:293-309 | the received FAQ keeps the document's id, question and tags, and has a category iff its reference resolves |
| `FaqFindings.ReceivedAsQueried` | sanity/lib/queries.ts:304-308 | with the query's projection no received category carries an id |
| `FaqFindings.ReceivedWithId` | sanity/lib/queries.ts:304-308 | with the corrected projection every received category comes from a resolved reference and carries the referenced category document's id |
| `FaqFindings.SelectingCategoryHidesEverything` | app/faq/page.tsx:50 | as written, selecting any category shows no FAQ at all |
| `FaqFindings.SelectingCategoryKeepsItsFaqs` | app/faq/page.tsx:50 | with the id projected, selecting a category shows exactly the matching FAQs whose category reference is that category |

## Findings

| source | as written | input that shows it | evidently intended | confidence | as-written member | corrected member |
|---|---|---|---|---|---|---|
| app/faq/page.tsx:55-62 | the accumulator is `{}`, so `acc[title]` also finds names inherited from `Object.prototype`; for such a title no array is created and `.push` is not a function, so rendering throws | one FAQ whose category title is `constructor` (likewise `toString`, `valueOf`, `__proto__`, ...) | that FAQ is listed under a `constructor` heading | not executed; high | `FaqFindings.PrototypeTitleThrows` | `FaqGrouping.GroupByTitle` |
| app/faq/page.tsx:50 | the category test reads `faq.category?._id`, but the FAQ query (sanity/lib/queries.ts:304-308) projects the category as `{title, slug, icon}` without `_id`, so the test never passes | any FAQs, then a click on any category button | the FAQs of the clicked category stay visible | not executed; high | `FaqFindings.SelectingCategoryHidesEverything` | `FaqFindings.SelectingCategoryKeepsItsFaqs` |

The rest of the model groups with a map keyed by title (no inherited keys) and takes each
received category's id as an input that may be present, as the corrected query provides.

## Left out

- Fetching: the two `client.fetch` calls, `Promise.all` and the error log (app/faq/page.tsx:17-33) are network I/O; their outcome enters as the arguments of `Page.Loaded` or as a call to `Page.LoadFailed`.
- The content backend's query engine: ordering, reference resolution and counting in sanity/lib/queries.ts; only the shape of the FAQ query's category projection is modelled, for the finding.
- Rendering: all JSX, including the empty-state message (app/faq/page.tsx:127-136) and which FAQ fields are displayed; `Page.IsExpanded` and `Page.FilteredFaqs` stand for the values the render reads.
- React scheduling: state updates are immediate field assignments. Two clicks handled within one render would both copy the same stale set; that batching is not modelled.
- `JsString.ToLowerCase`: lower-cases ASCII letters only; JavaScript's Unicode case mapping (which can change a string's length) is not modelled.
- `FaqGrouping.TitlesInFirstAppearanceOrder`: `Object.entries` lists integer-like keys (a category titled `2024`, say) first in ascending numeric order, ahead of insertion order; the model states first-appearance order for all keys.
- An FAQ whose `question` is missing would make `toLowerCase` throw; the model takes `question` as always present, as the `FAQ` record type (sanity/types/index.ts:231-243) declares.
- The category list is stored but only used for the filter buttons, which are rendering.

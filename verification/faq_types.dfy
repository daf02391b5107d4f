/** The FAQ records as the FAQ page receives them from the content backend
    (the `FAQ` and `FAQCategory` interfaces). Only the fields the page's
    filtering, grouping and expansion logic reads are kept; the answer body,
    helpful counts, ordering and dates are only rendered. */
module FaqTypes {
  import opened Wrappers

  /** The category an FAQ refers to. Both fields may be missing in the
      fetched JSON: the id because the FAQ query does not project it, the
      title when the referenced document has none. */
  datatype FaqCategory = FaqCategory(id: Option<string>, title: Option<string>)

  /** One FAQ: its document id, its question text, its category (absent when
      the reference is unset or dangling) and its optional list of tags. */
  datatype Faq = Faq(
    id: string,
    question: string,
    category: Option<FaqCategory>,
    tags: Option<seq<string>>)
}

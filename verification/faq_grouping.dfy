/** The FAQ page's grouping: `groupedFaqs` reduces the filtered list into a
    record from category title to the FAQs with that title, creating a key
    the first time a title is seen and pushing each FAQ onto its title's
    array. The page lists the groups in the record's key order, which is the
    order in which titles first appear. */
module FaqGrouping {
  import opened Wrappers
  import opened FaqTypes
  import opened JsArray

  /** The key for FAQs without a usable category title. */
  const FallbackTitle: string := "General"

  /** `faq.category?.title || 'General'`: the category's title when there is
      a category with a non-empty title, otherwise the fallback. */
  function GroupTitle(faq: Faq): (title: string)
    ensures title != ""
    ensures title == FallbackTitle || (faq.category.Some? && faq.category.value.title == Some(title))
    ensures (faq.category.Some? && faq.category.value.title.Some? && faq.category.value.title.value != "")
              ==> title == faq.category.value.title.value
  {
    match faq.category
    case Some(FaqCategory(_, Some(t))) => if t != "" then t else FallbackTitle
    case _ => FallbackTitle
  }

  function HasTitle(title: string): Faq -> bool {
    faq => GroupTitle(faq) == title
  }

  /** The intended contents of group `title`: the FAQs of `fs` with that
      title, in their order in `fs`. */
  function Group(fs: seq<Faq>, title: string): seq<Faq> {
    Filter(fs, HasTitle(title))
  }

  ghost predicate NoDuplicates(s: seq<string>) {
    forall i, j :: 0 <= i < j < |s| ==> s[i] != s[j]
  }

  /** The group titles in order of first appearance in `fs`: each title once,
      every FAQ's title among them, and each of them the title of some FAQ. */
  function Titles(fs: seq<Faq>): (titles: seq<string>)
    ensures NoDuplicates(titles)
    ensures forall i :: 0 <= i < |fs| ==> GroupTitle(fs[i]) in titles
    ensures forall t :: t in titles ==> exists i :: 0 <= i < |fs| && GroupTitle(fs[i]) == t
    decreases |fs|
  {
    if fs == [] then []
    else
      var init := Titles(fs[..|fs| - 1]);
      var t := GroupTitle(fs[|fs| - 1]);
      assert forall i :: 0 <= i < |fs| - 1 ==> fs[..|fs| - 1][i] == fs[i];
      if t in init then init else init + [t]
  }

  lemma TitlesSnoc(fs: seq<Faq>, faq: Faq)
    ensures Titles(fs + [faq]) ==
      if GroupTitle(faq) in Titles(fs) then Titles(fs) else Titles(fs) + [GroupTitle(faq)]
  {
    assert (fs + [faq])[..|fs|] == fs;
  }

  /** The accumulator after reducing `fs`: `titles` are the keys in
      insertion order, `groups` maps exactly those keys, and each key's
      array holds that title's FAQs in order. */
  ghost predicate Accumulates(fs: seq<Faq>, titles: seq<string>, groups: map<string, seq<Faq>>) {
    && titles == Titles(fs)
    && (forall t :: t in groups <==> t in titles)
    && (forall t :: t in groups ==> groups[t] == Group(fs, t))
  }

  /** One step of the reduce: create the key if it is missing, then push. */
  lemma AccumulateStep(fs: seq<Faq>, faq: Faq, titles: seq<string>, groups: map<string, seq<Faq>>)
    requires Accumulates(fs, titles, groups)
    ensures var title := GroupTitle(faq);
      Accumulates(fs + [faq],
        if title in groups then titles else titles + [title],
        groups[title := (if title in groups then groups[title] else []) + [faq]])
  {
    var title := GroupTitle(faq);
    TitlesSnoc(fs, faq);
    var groups' := groups[title := (if title in groups then groups[title] else []) + [faq]];
    forall t | t in groups'
      ensures groups'[t] == Group(fs + [faq], t)
    {
      FilterSnoc(fs, faq, HasTitle(t));
      if t == title && title !in groups {
        GroupEmptyUnlessTitle(fs, title);
      }
    }
  }

  lemma PrefixSnoc<T>(s: seq<T>, i: int)
    requires 0 <= i < |s|
    ensures s[..i + 1] == s[..i] + [s[i]]
  {
  }

  /** The `reduce` of `groupedFaqs`: the accumulator record is the pair of its
      keys in insertion order (`titles`) and its key-to-array map (`groups`). */
  method GroupByTitle(fs: seq<Faq>) returns (titles: seq<string>, groups: map<string, seq<Faq>>)
    ensures titles == Titles(fs)
    ensures forall t :: t in groups <==> t in titles
    ensures forall t :: t in groups ==> groups[t] == Group(fs, t) && groups[t] != []
  {
    titles, groups := [], map[];
    for i := 0 to |fs|
      invariant Accumulates(fs[..i], titles, groups)
    {
      var faq := fs[i];
      var title := GroupTitle(faq);
      PrefixSnoc(fs, i);
      ghost var prefix, titles0, groups0 := fs[..i], titles, groups;
      AccumulateStep(prefix, faq, titles0, groups0);
      // `if (!acc[title]) acc[title] = []`, then `acc[title].push(faq)`
      var bucket := if title in groups then groups[title] else [];
      if title !in groups {
        titles := titles + [title];
      }
      groups := groups[title := bucket + [faq]];
    }
    assert fs[..|fs|] == fs;
    forall t | t in groups
      ensures groups[t] != []
    {
      GroupNonEmpty(fs, t);
    }
  }

  /** The position of the first FAQ titled `title`, or `|fs|` when there is none. */
  function FirstIndex(fs: seq<Faq>, title: string): (k: nat)
    ensures k <= |fs|
    ensures k < |fs| ==> GroupTitle(fs[k]) == title
    ensures forall j :: 0 <= j < k && j < |fs| ==> GroupTitle(fs[j]) != title
    decreases |fs|
  {
    if fs == [] then 0
    else
      var n := |fs| - 1;
      var k := FirstIndex(fs[..n], title);
      assert forall j :: 0 <= j < n ==> fs[..n][j] == fs[j];
      if k < n then k else if GroupTitle(fs[n]) == title then n else n + 1
  }

  lemma TitlePresentHasFirstIndex(fs: seq<Faq>, title: string)
    requires title in Titles(fs)
    ensures FirstIndex(fs, title) < |fs|
  {
    var i :| 0 <= i < |fs| && GroupTitle(fs[i]) == title;
  }

  /** Extending the list by one FAQ keeps the first position of a title
      already present, and gives a new title the last position. */
  lemma FirstIndexSnoc(fs: seq<Faq>, faq: Faq, title: string)
    ensures FirstIndex(fs + [faq], title) ==
      if FirstIndex(fs, title) < |fs| then FirstIndex(fs, title)
      else if GroupTitle(faq) == title then |fs| else |fs| + 1
  {
    assert (fs + [faq])[..|fs|] == fs;
  }

  /** One pair of group keys: the earlier key first appears earlier. */
  lemma {:induction false} OrderedPair(fs: seq<Faq>, k: int, l: int)
    requires 0 <= k < l < |Titles(fs)|
    ensures FirstIndex(fs, Titles(fs)[k]) < FirstIndex(fs, Titles(fs)[l])
    decreases |fs|
  {
    var n := |fs| - 1;
    var init, faq := fs[..n], fs[n];
    assert fs == init + [faq];
    TitlesSnoc(init, faq);
    var ts0, ts := Titles(init), Titles(fs);
    var tk, tl := ts[k], ts[l];
    assert tk in ts0 by {
      assert k < |ts0|;
      assert ts0[k] == tk;
    }
    TitlePresentHasFirstIndex(init, tk);
    FirstIndexSnoc(init, faq, tk);
    FirstIndexSnoc(init, faq, tl);
    if l < |ts0| {
      assert ts0[l] == tl && ts0[k] == tk;
      OrderedPair(init, k, l);
      TitlePresentHasFirstIndex(init, tl);
    } else {
      assert tl == GroupTitle(faq) && tl !in ts0;
      assert FirstIndex(init, tl) == n;
    }
  }

  /** Groups are listed in the order in which their titles first appear in
      the filtered list: this is the key order `Object.entries` reports for
      the accumulator record. */
  lemma TitlesInFirstAppearanceOrder(fs: seq<Faq>)
    ensures forall k, l :: 0 <= k < l < |Titles(fs)| ==>
      FirstIndex(fs, Titles(fs)[k]) < FirstIndex(fs, Titles(fs)[l])
  {
    forall k, l | 0 <= k < l < |Titles(fs)|
      ensures FirstIndex(fs, Titles(fs)[k]) < FirstIndex(fs, Titles(fs)[l])
    {
      OrderedPair(fs, k, l);
    }
  }

  /** Each FAQ lands in exactly one group: the one for its own title. */
  lemma EachFaqInExactlyOneGroup(fs: seq<Faq>, i: int)
    requires 0 <= i < |fs|
    ensures GroupTitle(fs[i]) in Titles(fs)
    ensures fs[i] in Group(fs, GroupTitle(fs[i]))
    ensures forall t :: t != GroupTitle(fs[i]) ==> fs[i] !in Group(fs, t)
  {
    FilterContains(fs, HasTitle(GroupTitle(fs[i])), fs[i]);
    forall t | t != GroupTitle(fs[i])
      ensures fs[i] !in Group(fs, t)
    {
      FilterContains(fs, HasTitle(t), fs[i]);
    }
  }

  /** A group keeps the relative order of its FAQs: it is `fs` read at the
      increasing positions of exactly the FAQs with that title. */
  lemma GroupKeepsOrder(fs: seq<Faq>, title: string)
    ensures Embeds(Group(fs, title), fs, KeptIndices(fs, HasTitle(title)))
    ensures forall i :: 0 <= i < |fs| ==> (i in KeptIndices(fs, HasTitle(title)) <==> GroupTitle(fs[i]) == title)
  {
    FilterEmbeds(fs, HasTitle(title));
  }

  /** A title that is not among the titles has an empty group. */
  lemma GroupEmptyUnlessTitle(fs: seq<Faq>, title: string)
    requires title !in Titles(fs)
    ensures Group(fs, title) == []
  {
    FilterKeepsNone(fs, HasTitle(title));
  }

  /** Every title has a non-empty group: no key is created without a push. */
  lemma GroupNonEmpty(fs: seq<Faq>, title: string)
    requires title in Titles(fs)
    ensures Group(fs, title) != []
  {
    var i :| 0 <= i < |fs| && GroupTitle(fs[i]) == title;
    FilterContains(fs, HasTitle(title), fs[i]);
  }

  /** The sum of the sizes of the groups named by `titles`. */
  function TotalSize(fs: seq<Faq>, titles: seq<string>): nat
    decreases |titles|
  {
    if titles == [] then 0
    else TotalSize(fs, titles[..|titles| - 1]) + |Group(fs, titles[|titles| - 1])|
  }

  lemma {:induction false} TotalSizeSnoc(fs: seq<Faq>, faq: Faq, titles: seq<string>)
    requires NoDuplicates(titles)
    ensures TotalSize(fs + [faq], titles) ==
      TotalSize(fs, titles) + (if GroupTitle(faq) in titles then 1 else 0)
    decreases |titles|
  {
    if titles != [] {
      var n := |titles| - 1;
      TotalSizeSnoc(fs, faq, titles[..n]);
      FilterSnoc(fs, faq, HasTitle(titles[n]));
      assert titles == titles[..n] + [titles[n]];
      assert GroupTitle(faq) == titles[n] ==> GroupTitle(faq) !in titles[..n];
    }
  }

  /** The group sizes add up to the number of FAQs grouped. */
  lemma {:induction false} GroupSizesSum(fs: seq<Faq>)
    ensures TotalSize(fs, Titles(fs)) == |fs|
    decreases |fs|
  {
    if fs != [] {
      var n := |fs| - 1;
      var init, faq := fs[..n], fs[n];
      assert fs == init + [faq];
      GroupSizesSum(init);
      TitlesSnoc(init, faq);
      TotalSizeSnoc(init, faq, Titles(init));
      var title := GroupTitle(faq);
      if title !in Titles(init) {
        GroupEmptyUnlessTitle(init, title);
        FilterSnoc(init, faq, HasTitle(title));
        assert (Titles(init) + [title])[..|Titles(init)|] == Titles(init);
      }
    }
  }
}

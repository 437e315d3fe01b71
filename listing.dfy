/**
 * The pure data logic of the application component (src/App.tsx): the
 * visible-article filter, the list of distinct categories derived from a
 * fetch, the local view-count update, and the lookup by id that precedes it.
 */
module Listing {

  import opened Wrappers
  import opened Strings
  import opened Records
  import opened Sequences

  /** The category selector value that switches the category step off. */
  const AllCategories: string := "all"

  /** `tags.some(tag => tag.toLowerCase().includes(query))` */
  predicate SomeTagContains(tags: seq<string>, query: string) {
    exists j :: 0 <= j < |tags| && Contains(Lower(tags[j]), query)
  }

  /** The search test of the filter, for a query that is already lower-cased. */
  predicate Matches(a: Article, query: string) {
    || Contains(Lower(a.title), query)
    || Contains(Lower(a.content), query)
    || SomeTagContains(a.tags, query)
  }

  /** The two `Array.filter` tests the filter applies one after the other. */
  datatype Criterion = InCategory(category: string) | Mentions(query: string)

  predicate Holds(c: Criterion, a: Article) {
    match c
    case InCategory(category) => a.category == category
    case Mentions(query) => Matches(a, query)
  }

  /** `s.filter(a => Holds(c, a))` */
  function Keep(s: seq<Article>, c: Criterion): seq<Article> {
    if s == [] then []
    else if Holds(c, s[0]) then [s[0]] + Keep(s[1..], c) else Keep(s[1..], c)
  }

  /** Filtering keeps the order of what it keeps. */
  lemma {:induction false} KeepOrder(s: seq<Article>, c: Criterion)
    ensures Subsequence(Keep(s, c), s)
  {
    if s != [] {
      KeepOrder(s[1..], c);
    }
  }

  /** Filtering keeps each article that passes as often as it occurs in `s`, and no other. */
  lemma {:induction false} KeepCounts(s: seq<Article>, c: Criterion)
    ensures forall a :: multiset(Keep(s, c))[a] == if Holds(c, a) then multiset(s)[a] else 0
  {
    if s != [] {
      KeepCounts(s[1..], c);
      assert s == [s[0]] + s[1..];
    }
  }

  /** Filtering a sequence whose every element passes changes nothing. */
  lemma {:induction false} KeepAllPass(s: seq<Article>, c: Criterion)
    requires forall a :: a in s ==> Holds(c, a)
    ensures Keep(s, c) == s
  {
    if s != [] {
      KeepAllPass(s[1..], c);
    }
  }

  /** Whether the filter shows article `a` for the given selector and search text. */
  predicate Passes(a: Article, selectedCategory: string, searchQuery: string) {
    && (selectedCategory == AllCategories || a.category == selectedCategory)
    && (searchQuery == "" || Matches(a, Lower(searchQuery)))
  }

  /**
   * `filterArticles`: the category step when a category is selected, then
   * the search step when the search text is not empty.
   */
  function FilterArticles(articles: seq<Article>, selectedCategory: string, searchQuery: string): seq<Article> {
    var byCategory := if selectedCategory != AllCategories then Keep(articles, InCategory(selectedCategory)) else articles;
    if searchQuery != "" then Keep(byCategory, Mentions(Lower(searchQuery))) else byCategory
  }

  /**
   * The filter keeps the articles that pass both steps, each as often as
   * among the fetched ones, in the fetched order.
   */
  lemma FilterShape(articles: seq<Article>, selectedCategory: string, searchQuery: string)
    ensures var r := FilterArticles(articles, selectedCategory, searchQuery);
      && Subsequence(r, articles)
      && forall a :: multiset(r)[a] == if Passes(a, selectedCategory, searchQuery) then multiset(articles)[a] else 0
  {
    var byCategory := if selectedCategory != AllCategories then Keep(articles, InCategory(selectedCategory)) else articles;
    SubsequenceReflexive(articles);
    if selectedCategory != AllCategories {
      KeepOrder(articles, InCategory(selectedCategory));
      KeepCounts(articles, InCategory(selectedCategory));
    }
    if searchQuery != "" {
      var bySearch := Keep(byCategory, Mentions(Lower(searchQuery)));
      KeepOrder(byCategory, Mentions(Lower(searchQuery)));
      KeepCounts(byCategory, Mentions(Lower(searchQuery)));
      SubsequenceTransitive(bySearch, byCategory, articles);
    }
  }

  /** An article is shown exactly when it is among the input and passes both steps. */
  lemma FilterMembership(articles: seq<Article>, selectedCategory: string, searchQuery: string, a: Article)
    ensures a in FilterArticles(articles, selectedCategory, searchQuery)
        <==> a in articles && Passes(a, selectedCategory, searchQuery)
  {
    var r := FilterArticles(articles, selectedCategory, searchQuery);
    FilterShape(articles, selectedCategory, searchQuery);
    assert a in r <==> multiset(r)[a] > 0;
    assert a in articles <==> multiset(articles)[a] > 0;
  }

  /** With no category and no search text every article is shown, in the fetched order. */
  lemma FilterShowsAll(articles: seq<Article>)
    ensures FilterArticles(articles, AllCategories, "") == articles
  {
  }

  /** Filtering the visible articles again with the same selector and search text changes nothing. */
  lemma {:induction false} FilterIdempotent(articles: seq<Article>, selectedCategory: string, searchQuery: string)
    ensures FilterArticles(FilterArticles(articles, selectedCategory, searchQuery), selectedCategory, searchQuery)
         == FilterArticles(articles, selectedCategory, searchQuery)
  {
    var r := FilterArticles(articles, selectedCategory, searchQuery);
    FilterShape(articles, selectedCategory, searchQuery);
    forall a | a in r
      ensures Passes(a, selectedCategory, searchQuery)
    {
      assert multiset(r)[a] > 0;
    }
    if selectedCategory != AllCategories {
      KeepAllPass(r, InCategory(selectedCategory));
    }
    if searchQuery != "" {
      KeepAllPass(r, Mentions(Lower(searchQuery)));
    }
  }

  /** `data.map(article => article.category)` */
  function CategoryColumn(articles: seq<Article>): (r: seq<string>)
    ensures |r| == |articles|
    ensures forall i :: 0 <= i < |articles| ==> r[i] == articles[i].category
  {
    if articles == [] then [] else [articles[0].category] + CategoryColumn(articles[1..])
  }

  /** The position of the first occurrence of `x` in `xs`. */
  function FirstIndex(xs: seq<string>, x: string): (k: nat)
    requires x in xs
    ensures k < |xs| && xs[k] == x
    ensures forall j :: 0 <= j < k ==> xs[j] != x
  {
    if xs[0] == x then 0 else 1 + FirstIndex(xs[1..], x)
  }

  /** `Array.from(new Set(xs))`: a JavaScript Set remembers the order in which values were first added. */
  function Distinct(xs: seq<string>): (r: seq<string>)
    ensures forall x :: x in r <==> x in xs
    ensures forall i, j :: 0 <= i < j < |r| ==> r[i] != r[j]
  {
    if xs == [] then []
    else
      var r := Distinct(xs[..|xs| - 1]);
      var x := xs[|xs| - 1];
      assert xs == xs[..|xs| - 1] + [x];
      if x in r then r else r + [x]
  }

  /** The first occurrence of a value in a prefix is its first occurrence in the whole sequence. */
  lemma FirstIndexInPrefix(xs: seq<string>, m: nat, x: string)
    requires m <= |xs| && x in xs[..m]
    ensures FirstIndex(xs, x) == FirstIndex(xs[..m], x)
  {
    var k := FirstIndex(xs[..m], x);
    var k' := FirstIndex(xs, x);
    assert xs[k] == x;
    assert k' <= k;
    assert xs[..m][k'] == x;
  }

  /** The distinct values come in the order of their first occurrences. */
  lemma {:induction false} DistinctFirstOccurrenceOrder(xs: seq<string>)
    ensures forall i, j :: 0 <= i < j < |Distinct(xs)| ==>
      FirstIndex(xs, Distinct(xs)[i]) < FirstIndex(xs, Distinct(xs)[j])
  {
    if xs != [] {
      var init := xs[..|xs| - 1];
      var x := xs[|xs| - 1];
      var r := Distinct(init);
      DistinctFirstOccurrenceOrder(init);
      forall y | y in r
        ensures FirstIndex(xs, y) == FirstIndex(init, y) < |init|
      {
        FirstIndexInPrefix(xs, |init|, y);
      }
      if x !in r {
        assert x !in init;
        assert FirstIndex(xs, x) == |xs| - 1;
        assert Distinct(xs) == r + [x];
      }
    }
  }

  /** The categories shown in the sidebar: `Array.from(new Set(data.map(article => article.category)))`. */
  function UniqueCategories(articles: seq<Article>): seq<string> {
    Distinct(CategoryColumn(articles))
  }

  /** Each category of the fetched articles is listed, once, and nothing else is. */
  lemma UniqueCategoriesShape(articles: seq<Article>)
    ensures var r := UniqueCategories(articles);
      && (forall c :: c in r <==> exists i :: 0 <= i < |articles| && articles[i].category == c)
      && (forall i, j :: 0 <= i < j < |r| ==> r[i] != r[j])
  {
    var column := CategoryColumn(articles);
    forall c | c in column
      ensures exists i :: 0 <= i < |articles| && articles[i].category == c
    {
      var i :| 0 <= i < |column| && column[i] == c;
      assert articles[i].category == c;
    }
  }

  /** The sidebar categories come in the order in which they first occur among the articles. */
  lemma UniqueCategoriesOrder(articles: seq<Article>)
    ensures forall i, j :: 0 <= i < j < |UniqueCategories(articles)| ==>
      FirstIndex(CategoryColumn(articles), UniqueCategories(articles)[i])
        < FirstIndex(CategoryColumn(articles), UniqueCategories(articles)[j])
  {
    DistinctFirstOccurrenceOrder(CategoryColumn(articles));
  }

  /** `a.id === id ? { ...a, views: a.views + 1 } : a` */
  function Bumped(a: Article, id: string): Article {
    if a.id == id then a.(views := a.views + 1) else a
  }

  /** `a` and `b` agree on every field but the view count. */
  predicate SameButViews(a: Article, b: Article) {
    a.(views := 0) == b.(views := 0)
  }

  /** The local update after a successful remote increment: `prev.map(a => a.id === id ? ... : a)`. */
  function BumpViews(articles: seq<Article>, id: string): seq<Article> {
    if articles == [] then [] else [Bumped(articles[0], id)] + BumpViews(articles[1..], id)
  }

  /**
   * The update keeps every article in its place with all its fields but the
   * count, and increments the count of exactly the articles with the id.
   */
  lemma {:induction false} BumpViewsShape(articles: seq<Article>, id: string)
    ensures var r := BumpViews(articles, id);
      && |r| == |articles|
      && (forall i :: 0 <= i < |r| ==> r[i].id == articles[i].id && SameButViews(r[i], articles[i]))
      && (forall i :: 0 <= i < |r| ==>
            r[i].views == if articles[i].id == id then articles[i].views + 1 else articles[i].views)
  {
    if articles != [] {
      BumpViewsShape(articles[1..], id);
    }
  }

  /** When no article has the id the collection is unchanged. */
  lemma BumpAbsent(articles: seq<Article>, id: string)
    requires forall i :: 0 <= i < |articles| ==> articles[i].id != id
    ensures BumpViews(articles, id) == articles
  {
    var r := BumpViews(articles, id);
    BumpViewsShape(articles, id);
    forall i | 0 <= i < |r|
      ensures r[i] == articles[i]
    {
      assert r[i].(views := 0) == articles[i].(views := 0);
    }
  }

  /** The view count plays no part in the filter's tests. */
  lemma HoldsIgnoresViews(c: Criterion, a: Article, id: string)
    ensures Holds(c, Bumped(a, id)) == Holds(c, a)
  {
  }

  lemma {:induction false} KeepBump(s: seq<Article>, c: Criterion, id: string)
    ensures Keep(BumpViews(s, id), c) == BumpViews(Keep(s, c), id)
  {
    if s != [] {
      var b := BumpViews(s, id);
      assert b[0] == Bumped(s[0], id) && b[1..] == BumpViews(s[1..], id);
      HoldsIgnoresViews(c, s[0], id);
      KeepBump(s[1..], c, id);
    }
  }

  /** Incrementing a count and then filtering shows the filtered articles with that count incremented. */
  lemma FilterBump(articles: seq<Article>, selectedCategory: string, searchQuery: string, id: string)
    ensures FilterArticles(BumpViews(articles, id), selectedCategory, searchQuery)
         == BumpViews(FilterArticles(articles, selectedCategory, searchQuery), id)
  {
    var byCategory := if selectedCategory != AllCategories then Keep(articles, InCategory(selectedCategory)) else articles;
    if selectedCategory != AllCategories {
      KeepBump(articles, InCategory(selectedCategory), id);
    }
    if searchQuery != "" {
      KeepBump(byCategory, Mentions(Lower(searchQuery)), id);
    }
  }

  /** Incrementing a count leaves the derived categories as they were. */
  lemma BumpKeepsCategories(articles: seq<Article>, id: string)
    ensures UniqueCategories(BumpViews(articles, id)) == UniqueCategories(articles)
  {
    var b := BumpViews(articles, id);
    BumpViewsShape(articles, id);
    forall i | 0 <= i < |b|
      ensures b[i].category == articles[i].category
    {
      assert b[i].(views := 0) == articles[i].(views := 0);
    }
    assert CategoryColumn(b) == CategoryColumn(articles);
  }

  /** `articles.find(a => a.id === id)`: the first article with that id, if any. */
  function Find(articles: seq<Article>, id: string): (r: Option<Article>)
    ensures r.None? <==> forall i :: 0 <= i < |articles| ==> articles[i].id != id
    ensures r.Some? ==> exists i :: 0 <= i < |articles| && articles[i] == r.value && r.value.id == id
                                    && forall j :: 0 <= j < i ==> articles[j].id != id
  {
    if articles == [] then None
    else if articles[0].id == id then Some(articles[0])
    else
      var r := Find(articles[1..], id);
      if r.Some? then
        var i :| 0 <= i < |articles| - 1 && articles[1..][i] == r.value && r.value.id == id
                 && forall j :: 0 <= j < i ==> articles[1..][j].id != id;
        assert articles[i + 1] == r.value;
        r
      else r
  }
}

/**
 * The application component of the wiki (src/App.tsx): the fetched
 * articles, the search text and category selector, the derived category
 * list, the current view with its selected article, and the handlers that
 * move between them.
 *
 * Every call to the hosted database is recorded as a `Request` in the
 * `requests` log, and its reply is a parameter of the handler that makes
 * it: `Outcome` for a write, `FetchReply` for the select that reloads the
 * collection. The handlers are modelled as if each ran to completion before
 * the next event, which is what the awaits in the source achieve for a
 * single user.
 */
module Controller {

  import opened Wrappers
  import opened Records
  import opened Listing
  import opened Editor

  /** The four screens of the application. */
  datatype View = ListView | ArticleView | EditView | CreateView

  /** The reply to an insert, an update or a delete: no error, or an error. */
  datatype Outcome = Success | Failure

  /** The reply to the select: rows, a reply with neither rows nor error, or an error. */
  datatype FetchReply = Rows(rows: seq<Article>) | NoData | FetchError

  /** A call made to the `wiki_articles` table. */
  datatype Request =
    | SelectAll
    | InsertRow(fields: Fields)
    | UpdateRow(id: string, fields: Fields, updatedAt: string)
    | DeleteRow(id: string)
    | UpdateViews(id: string, views: nat)

  /** `if (articleData.id)`: JavaScript truthiness, so an empty id counts as no id. */
  predicate HasId(d: Draft) {
    d.id.Some? && d.id.value != ""
  }

  /** The write `handleSaveArticle` makes for a draft, with `now` standing for `new Date().toISOString()`. */
  function SaveRequest(d: Draft, now: string): (r: Request)
    ensures r.UpdateRow? || r.InsertRow?
    ensures r.UpdateRow? <==> HasId(d)
    ensures r.fields == d.fields
    ensures r.UpdateRow? ==> r.id == d.id.value && r.updatedAt == now
  {
    if d.id.Some? && d.id.value != "" then UpdateRow(d.id.value, d.fields, now) else InsertRow(d.fields)
  }

  /**
   * A form submitted for an existing article updates that article's row,
   * stamped with the current time; a form submitted for a new article
   * inserts a row. Either way the row gets the form's text, the slug
   * derived from its title and the tags parsed from its tag text.
   */
  lemma SubmitWrites(f: Form, article: Option<Article>, now: string)
    ensures var r := SaveRequest(Submit(f, article), now);
      && (article.Some? && article.value.id != "" ==> r == UpdateRow(article.value.id, r.fields, now))
      && (article.None? ==> r.InsertRow?)
      && r.fields.title == f.title && r.fields.content == f.content && r.fields.category == f.category
      && r.fields.slug == Slugify(f.title)
      && r.fields.tags == ParseTags(f.tagsText)
  {
  }

  /** The write `incrementViews` makes: the found article's count plus one, or nothing when no article has the id. */
  function ViewsWrite(articles: seq<Article>, id: string): (r: seq<Request>)
    ensures |r| <= 1
    ensures r == [] <==> forall i :: 0 <= i < |articles| ==> articles[i].id != id
    ensures r != [] ==> exists i :: 0 <= i < |articles| && articles[i].id == id && r == [UpdateViews(id, articles[i].views + 1)]
  {
    match Find(articles, id)
    case Some(a) => [UpdateViews(id, a.views + 1)]
    case None => []
  }

  /**
   * The effect of `incrementViews` on the collection and on the calls made:
   * the write of the found count, and the local increment only when that
   * write succeeded.
   */
  predicate Incremented(articles: seq<Article>, requests: seq<Request>, id: string, write: Outcome,
                        articles': seq<Article>, requests': seq<Request>) {
    && requests' == requests + ViewsWrite(articles, id)
    && articles' == if ViewsWrite(articles, id) != [] && write == Success then BumpViews(articles, id) else articles
  }

  /**
   * The editor's fields after the selection becomes `article` and the view
   * goes from `from` to an editor view. Edit and create share one editor
   * slot, so an editor already open is kept: its initial values are not
   * taken again, and its effect copies a present article in but ignores an
   * absent one. From any other view a new editor opens.
   */
  function Reopened(from: View, form: Form, article: Option<Article>): (f: Form)
    ensures article.Some? ==> f == OpenForm(article)
    ensures article.None? && (from == EditView || from == CreateView) ==> f == form
    ensures article.None? && from != EditView && from != CreateView ==> f == Form("", "", DefaultCategory, "")
  {
    if from == EditView || from == CreateView then Synced(form, article) else OpenForm(article)
  }

  /**
   * Pressing "New Article" while an article is being edited keeps its
   * fields in the editor, and submitting them then inserts a copy of the
   * article under a new row.
   */
  lemma NewWhileEditingCopies(a: Article, now: string)
    requires forall i :: 0 <= i < |a.tags| ==> IsTag(a.tags[i])
    ensures SaveRequest(Submit(Reopened(EditView, OpenForm(Some(a)), None), None), now)
         == InsertRow(Fields(a.title, Slugify(a.title), a.content, a.category, a.tags))
  {
    ParseFormatRoundTrip(a.tags);
  }

  /** What the page shows. */
  datatype Screen =
    | Spinner
    | ListScreen(searchQuery: string, selectedCategory: string, categories: seq<string>, shown: seq<Article>)
    | ArticleScreen(article: Article)
    | EditorScreen(form: Form)
    | EmptyMain

  /** The application state; the filtered list is derived from it rather than stored. */
  class Wiki {
    var articles: seq<Article>
    var searchQuery: string
    var selectedCategory: string
    var categories: seq<string>
    var view: View
    var selected: Option<Article>
    var loading: bool
    var requests: seq<Request>
    /** The fields of the editor, kept while an edit or create screen stays open. */
    var form: Form

    /**
     * The categories are always those of the fetched articles, and an
     * article is selected exactly on the reading and editing screens.
     */
    ghost predicate Valid()
      reads this
    {
      && categories == UniqueCategories(articles)
      && (selected.Some? <==> view == ArticleView || view == EditView)
    }

    /** `filteredArticles`: the articles that pass the category selector and the search text, in fetched order. */
    function Visible(): seq<Article>
      reads this
    {
      FilterArticles(articles, selectedCategory, searchQuery)
    }

    /** The rendered page: a spinner while loading, otherwise the screen of the current view. */
    function Render(): (s: Screen)
      reads this
      ensures loading <==> s.Spinner?
      ensures !loading && view == ListView ==> s == ListScreen(searchQuery, selectedCategory, categories, Visible())
      ensures !loading && view == ArticleView && selected.Some? ==> s == ArticleScreen(selected.value)
      ensures !loading && (view == EditView || view == CreateView) ==> s == EditorScreen(form)
    {
      if loading then Spinner
      else
        match view
        case ListView => ListScreen(searchQuery, selectedCategory, categories, Visible())
        case ArticleView => if selected.Some? then ArticleScreen(selected.value) else EmptyMain
        case EditView => EditorScreen(form)
        case CreateView => EditorScreen(form)
    }

    /** The initial state: nothing fetched, no search, every category, the list view, loading, a blank form. */
    constructor ()
      ensures Valid()
      ensures articles == [] && searchQuery == "" && selectedCategory == AllCategories && categories == []
      ensures view == ListView && selected == None && loading && requests == []
      ensures form == OpenForm(None)
    {
      articles := [];
      searchQuery := "";
      selectedCategory := AllCategories;
      categories := [];
      view := ListView;
      selected := None;
      loading := true;
      requests := [];
      form := OpenForm(None);
    }

    /**
     * `fetchArticles`: selects every row; rows replace the articles and
     * their categories, any other reply leaves them. Loading ends either way.
     */
    method FetchArticles(reply: FetchReply)
      requires Valid()
      modifies this
      ensures Valid()
      ensures requests == old(requests) + [SelectAll]
      ensures reply.Rows? ==> articles == reply.rows && categories == UniqueCategories(reply.rows)
      ensures !reply.Rows? ==> articles == old(articles) && categories == old(categories)
      ensures !loading
      ensures searchQuery == old(searchQuery) && selectedCategory == old(selectedCategory)
      ensures view == old(view) && selected == old(selected) && form == old(form)
    {
      requests := requests + [SelectAll];
      if reply.Rows? {
        articles := reply.rows;
        categories := UniqueCategories(reply.rows);
      }
      loading := false;
    }

    /**
     * `incrementViews`: when an article with the id is among the fetched
     * ones, writes its count plus one; only when that write succeeds is the
     * count of every article with the id incremented locally.
     */
    method IncrementViews(id: string, write: Outcome)
      requires Valid()
      modifies this
      ensures Valid()
      ensures Incremented(old(articles), old(requests), id, write, articles, requests)
      ensures categories == old(categories) && searchQuery == old(searchQuery)
      ensures selectedCategory == old(selectedCategory) && view == old(view) && selected == old(selected)
      ensures loading == old(loading) && form == old(form)
    {
      var call := ViewsWrite(articles, id);
      requests := requests + call;
      if call != [] && write == Success {
        BumpKeepsCategories(articles, id);
        articles := BumpViews(articles, id);
      }
    }

    /**
     * `handleArticleSelect`: increments the count, then shows the article
     * as it was passed in, whatever became of the increment.
     */
    method SelectArticle(article: Article, write: Outcome)
      requires Valid()
      modifies this
      ensures Valid()
      ensures view == ArticleView && selected == Some(article)
      ensures Incremented(old(articles), old(requests), article.id, write, articles, requests)
      ensures categories == old(categories) && searchQuery == old(searchQuery)
      ensures selectedCategory == old(selectedCategory) && loading == old(loading) && form == old(form)
    {
      IncrementViews(article.id, write);
      selected := Some(article);
      view := ArticleView;
    }

    /** The reading screen's edit action: edits the given article, its fields in the editor. */
    method EditArticle(article: Article)
      requires Valid()
      modifies this
      ensures Valid()
      ensures view == EditView && selected == Some(article)
      ensures form == Reopened(old(view), old(form), Some(article)) == OpenForm(Some(article))
      ensures articles == old(articles) && categories == old(categories) && requests == old(requests)
      ensures searchQuery == old(searchQuery) && selectedCategory == old(selectedCategory) && loading == old(loading)
    {
      form := Reopened(view, form, Some(article));
      selected := Some(article);
      view := EditView;
    }

    /**
     * `handleSaveArticle`: writes the draft (an update when it has an id,
     * an insert otherwise). On success reloads the collection and returns
     * to the list; on failure stays on the editor with nothing changed but
     * the attempted write.
     */
    method SaveArticle(draft: Draft, now: string, write: Outcome, reload: FetchReply)
      requires Valid()
      modifies this
      ensures Valid()
      ensures write == Success ==> requests == old(requests) + [SaveRequest(draft, now), SelectAll]
      ensures write == Failure ==> requests == old(requests) + [SaveRequest(draft, now)]
      ensures write == Success ==> view == ListView && selected == None && !loading
      ensures write == Success && reload.Rows? ==> articles == reload.rows
      ensures write == Failure || !reload.Rows? ==> articles == old(articles)
      ensures write == Failure ==> view == old(view) && selected == old(selected) && loading == old(loading)
      ensures searchQuery == old(searchQuery) && selectedCategory == old(selectedCategory) && form == old(form)
    {
      requests := requests + [SaveRequest(draft, now)];
      if write == Success {
        FetchArticles(reload);
        view := ListView;
        selected := None;
      }
    }

    /**
     * `handleDeleteArticle`: deletes the row with the id. On success
     * reloads the collection and returns to the list; on failure nothing
     * changes but the attempted delete.
     */
    method DeleteArticle(id: string, write: Outcome, reload: FetchReply)
      requires Valid()
      modifies this
      ensures Valid()
      ensures write == Success ==> requests == old(requests) + [DeleteRow(id), SelectAll]
      ensures write == Failure ==> requests == old(requests) + [DeleteRow(id)]
      ensures write == Success ==> view == ListView && selected == None && !loading
      ensures write == Success && reload.Rows? ==> articles == reload.rows
      ensures write == Failure || !reload.Rows? ==> articles == old(articles)
      ensures write == Failure ==> view == old(view) && selected == old(selected) && loading == old(loading)
      ensures searchQuery == old(searchQuery) && selectedCategory == old(selectedCategory) && form == old(form)
    {
      requests := requests + [DeleteRow(id)];
      if write == Success {
        FetchArticles(reload);
        view := ListView;
        selected := None;
      }
    }

    /**
     * `handleNewArticle`, from whichever screen: the create view with
     * nothing selected. The editor opens blank, unless an editor is already
     * open, which keeps its fields.
     */
    method NewArticle()
      requires Valid()
      modifies this
      ensures Valid()
      ensures view == CreateView && selected == None
      ensures form == Reopened(old(view), old(form), None)
      ensures articles == old(articles) && categories == old(categories) && requests == old(requests)
      ensures searchQuery == old(searchQuery) && selectedCategory == old(selectedCategory) && loading == old(loading)
    {
      form := Reopened(view, form, None);
      selected := None;
      view := CreateView;
    }

    /** `handleBack`: back to the list, nothing selected. */
    method Back()
      requires Valid()
      modifies this
      ensures Valid()
      ensures view == ListView && selected == None
      ensures articles == old(articles) && categories == old(categories) && requests == old(requests)
      ensures searchQuery == old(searchQuery) && selectedCategory == old(selectedCategory) && loading == old(loading)
      ensures form == old(form)
    {
      selected := None;
      view := ListView;
    }

    /** The sidebar's search box. */
    method SetSearchQuery(query: string)
      requires Valid()
      modifies this
      ensures Valid()
      ensures searchQuery == query
      ensures forall a :: a in Visible() <==> a in articles && Passes(a, selectedCategory, query)
      ensures articles == old(articles) && categories == old(categories) && requests == old(requests)
      ensures selectedCategory == old(selectedCategory) && view == old(view) && selected == old(selected)
      ensures loading == old(loading) && form == old(form)
    {
      searchQuery := query;
      forall a {
        FilterMembership(articles, selectedCategory, query, a);
      }
    }

    /** The sidebar's category selector. */
    method SetSelectedCategory(category: string)
      requires Valid()
      modifies this
      ensures Valid()
      ensures selectedCategory == category
      ensures forall a :: a in Visible() <==> a in articles && Passes(a, category, searchQuery)
      ensures articles == old(articles) && categories == old(categories) && requests == old(requests)
      ensures searchQuery == old(searchQuery) && view == old(view) && selected == old(selected)
      ensures loading == old(loading) && form == old(form)
    {
      selectedCategory := category;
      forall a {
        FilterMembership(articles, category, searchQuery, a);
      }
    }

    /** The editor's four inputs: typing replaces the fields; nothing else changes. */
    method FillForm(f: Form)
      requires Valid()
      modifies this
      ensures Valid()
      ensures form == f
      ensures articles == old(articles) && categories == old(categories) && requests == old(requests)
      ensures searchQuery == old(searchQuery) && selectedCategory == old(selectedCategory)
      ensures view == old(view) && selected == old(selected) && loading == old(loading)
    {
      form := f;
    }

    /**
     * The editor's submit: the draft built from the fields and the selected
     * article goes to `handleSaveArticle`.
     */
    method SubmitForm(now: string, write: Outcome, reload: FetchReply)
      requires Valid()
      modifies this
      ensures Valid()
      ensures write == Success ==>
        requests == old(requests) + [SaveRequest(Submit(old(form), old(selected)), now), SelectAll]
      ensures write == Failure ==> requests == old(requests) + [SaveRequest(Submit(old(form), old(selected)), now)]
      ensures write == Success ==> view == ListView && selected == None && !loading
      ensures write == Success && reload.Rows? ==> articles == reload.rows
      ensures write == Failure || !reload.Rows? ==> articles == old(articles)
      ensures write == Failure ==> view == old(view) && selected == old(selected) && loading == old(loading)
      ensures searchQuery == old(searchQuery) && selectedCategory == old(selectedCategory) && form == old(form)
    {
      SaveArticle(Submit(form, selected), now, write, reload);
    }
  }
}

# Wiki editor: data logic and screen controller

This project is a Dafny model of the data logic of a small wiki for workflow
documentation. Articles live in a hosted database table. The single-page
application fetches them, filters them by category and by a search text, and
counts views. It also lets a user read, create, edit and delete articles.

Two source files form the core.

`src/App.tsx` is the application component.
- `Listing` (listing.dfy) models its pure parts:
  - the visible-article filter (`filterArticles`);
  - the de-duplicated category list built after a fetch;
  - the lookup by id and the local view-count update of `incrementViews`.
- `Controller` (controller.dfy) models its handlers as methods of the class
  `Wiki`. The class's fields are the component's state: articles, search
  text, category selector, categories, view, selected article, loading flag.
- Each call to the database is recorded in the `requests` field. The reply is
  a parameter of the handler: `Outcome` for a write, `FetchReply` for the
  select.
- The field `form` holds the editor's four inputs. Edit and create share one
  editor slot, so an editor that is already open stays open across a switch
  between them (`Controller.Reopened`).
- The invariant `Wiki.Valid` states two things:
  - the category list is always the one derived from the articles;
  - an article is selected exactly on the reading and editing screens.

`src/components/ArticleEditor.tsx` is the editor form. `Editor` (editor.dfy)
models:
- the form's initial values;
- the slug derived from the title;
- the tag list parsed from the comma-separated tag field, and its inverse;
- the draft that submitting the form produces.

`Strings` (strings.dfy) models the JavaScript string operations these rely on:
`toLowerCase`, `trim`, `split`, `join` and `includes`. `Records` (records.dfy)
models the article record of `src/lib/supabase.ts`. `Sequences`
(sequences.dfy) defines the order-preserving selection every `Array.filter`
result is, and `Wrappers` (wrappers.dfy) holds `Option`.

Two more points about the model:
- `if (articleData.id)` is a JavaScript truthiness test. A draft whose id is
  the empty string is therefore inserted, not updated (`Controller.HasId`).
- `handleArticleSelect` shows the article object it was passed. That object
  has the view count from before the increment, while the collection holds
  the incremented count. The model keeps this.

The "new article" button is in the header, and the header is rendered on
every screen once loading has finished. So `Wiki.NewArticle` may be called
from any screen, not only from the list, as a reading of the application's
description alone would suggest. The model follows the code here.

Pressed on the edit screen, "New Article" does not give a blank form. The
editor stays mounted and its initial values are not taken again. Its effect
ignores the absent article, so the fields still hold the edited article's
values. Submitting them inserts a copy of that article
(`Controller.NewWhileEditingCopies`).

## Model

| member | source | states |
|---|---|---|
| Strings.LowerShape | src/App.tsx:60 | lower-casing keeps the length, leaves no capital letter, keeps every other character and moves each capital to its small letter |
| Strings.LowerOfLower | src/components/ArticleEditor.tsx:29 | a text without capitals is its own lower-case form |
| Strings.LowerAppend | src/components/ArticleEditor.tsx:29 | lower-casing a concatenation lower-cases each part |
| Strings.TrimStartShape | src/components/ArticleEditor.tsx:35 | the start-trimmed text is a suffix of the input that does not start with white space; everything cut off is white space |
| Strings.TrimEndShape | src/components/ArticleEditor.tsx:35 | the end-trimmed text is a prefix of the input that does not end with white space; everything cut off is white space |
| Strings.TrimShape | src/components/ArticleEditor.tsx:35 | a trimmed text neither starts nor ends with white space, holds only characters of the input, and is empty exactly when the input is all white space |
| Strings.TrimLeadingSpace | src/components/ArticleEditor.tsx:35 | a space put in front does not change the trimmed text |
| Strings.TrimOfTrimmed | src/components/ArticleEditor.tsx:35 | a text without white space at either end is its own trimmed form |
| Strings.Split | src/components/ArticleEditor.tsx:34 | splitting always yields at least one piece |
| Strings.SplitPieces | src/components/ArticleEditor.tsx:34 | no piece contains the separator |
| Strings.JoinSplit | src/components/ArticleEditor.tsx:34 | joining the pieces with the separator gives back the split text |
| Strings.SplitWithoutSeparator | src/components/ArticleEditor.tsx:34 | a text without the separator splits into itself alone |
| Strings.SplitAround | src/components/ArticleEditor.tsx:34 | the pieces of `a + sep + b` are the pieces of `a` followed by those of `b` |
| Strings.ContainsIffOccurs | src/App.tsx:63-65 | `includes` holds exactly when the needle occurs at some position of the text |
| Listing.KeepOrder | src/App.tsx:56 | `Array.filter` returns a subsequence of its input |
| Listing.KeepCounts | src/App.tsx:61-66 | `Array.filter` keeps each passing article as often as it occurs and drops every other |
| Listing.KeepAllPass | src/App.tsx:61-66 | filtering a list whose every element passes returns it unchanged |
| Listing.FilterShape | src/App.tsx:52-70 | the visible articles are a subsequence of the fetched ones, holding each article that passes the category and the search test as often as it was fetched, and no other |
| Listing.FilterMembership | src/App.tsx:52-70 | an article is visible exactly when it was fetched, its category equals the selector (unless the selector is `all`), and, when the search text is not empty, its lower-cased title, content or some tag contains the lower-cased search text |
| Listing.FilterShowsAll | src/App.tsx:53-59 | with the selector `all` and no search text every fetched article is visible, in fetched order |
| Listing.FilterIdempotent | src/App.tsx:52-70 | filtering the visible articles again with the same selector and text changes nothing |
| Listing.CategoryColumn | src/App.tsx:41 | the mapped column has one entry per article, its category |
| Listing.Distinct | src/App.tsx:40-42 | the de-duplicated list has the same members as the input and no repeats |
| Listing.DistinctFirstOccurrenceOrder | src/App.tsx:40-42 | the de-duplicated values come in the order of their first occurrences, as a JavaScript `Set` keeps them |
| Listing.UniqueCategoriesShape | src/App.tsx:40-43 | the sidebar categories are exactly the categories of the fetched articles, each once |
| Listing.UniqueCategoriesOrder | src/App.tsx:40-43 | the sidebar categories come in the order of their first occurrence among the fetched articles |
| Listing.BumpViewsShape | src/App.tsx:88-90 | the local update keeps length, order, ids and every field but the count, and increments the count of exactly the articles with the id |
| Listing.BumpAbsent | src/App.tsx:88-90 | when no article has the id the collection is unchanged |
| Listing.FilterBump | src/App.tsx:88-90 | incrementing a count and then filtering gives the previously visible articles with that count incremented |
| Listing.BumpKeepsCategories | src/App.tsx:88-90 | incrementing a count leaves the derived categories unchanged |
| Listing.Find | src/App.tsx:80 | the lookup finds nothing exactly when no article has the id, and otherwise returns the first article with that id |
| Editor.CollapseRunsShape | src/components/ArticleEditor.tsx:30 | after replacing runs only `[a-z0-9-]` remains, no two `-` are adjacent, and the result starts with `-` exactly when the input starts with a replaced run |
| Editor.Slugify | src/components/ArticleEditor.tsx:28-31 | every slug holds only `[a-z0-9-]`, has no `--`, and neither starts nor ends with `-` |
| Editor.CollapseRunsKeepsAlnums | src/components/ArticleEditor.tsx:30 | the run replacement keeps every letter and digit, in order |
| Editor.StripDashesKeepsAlnums | src/components/ArticleEditor.tsx:31 | stripping the edge dashes keeps every letter and digit |
| Editor.SlugKeepsLettersAndDigits | src/components/ArticleEditor.tsx:28-31 | the slug holds exactly the letters and digits of the lower-cased title, in order |
| Editor.CollapseRunsOfSlug | src/components/ArticleEditor.tsx:30 | text of `[a-z0-9-]` without `--` passes the run replacement unchanged |
| Editor.SlugOfSlug | src/components/ArticleEditor.tsx:28-31 | a slug is its own slug |
| Editor.SlugIdempotent | src/components/ArticleEditor.tsx:28-31 | deriving the slug twice gives the same slug as once |
| Editor.CollapseRunsWord | src/components/ArticleEditor.tsx:30 | a word of letters and digits passes the run replacement unchanged |
| Editor.CollapseRunsRun | src/components/ArticleEditor.tsx:30 | a whole run of other characters, up to a letter, digit or the end, becomes one `-` |
| Editor.SlugOfHelloWorld | src/components/ArticleEditor.tsx:28-31 | the title `Hello, World!!` gets the slug `hello-world` |
| Editor.SlugOfPaddedFoo | src/components/ArticleEditor.tsx:28-31 | the title `  --Foo--  ` gets the slug `foo` |
| Editor.TrimEachAt | src/components/ArticleEditor.tsx:35 | mapping `trim` keeps the number of pieces and trims each in its place |
| Editor.DropEmpty | src/components/ArticleEditor.tsx:36 | a piece is kept exactly when it is among the input and not empty |
| Editor.DropEmptyShape | src/components/ArticleEditor.tsx:36 | dropping empty pieces keeps the others in their order, each as often as it occurs, and drops every empty one |
| Editor.TrimEachAppend | src/components/ArticleEditor.tsx:35 | trimming each piece of two lists is trimming each list |
| Editor.DropEmptyAppend | src/components/ArticleEditor.tsx:36 | dropping empties from two lists is dropping them from each list |
| Editor.ParseTags | src/components/ArticleEditor.tsx:33-36 | every parsed tag is non-empty, contains no comma, and neither starts nor ends with white space |
| Editor.ParseTagsAround | src/components/ArticleEditor.tsx:33-36 | the tags of `a,b` are the tags of `a` followed by those of `b`, so tags keep their left-to-right order |
| Editor.ParseTagsLeadingSpace | src/components/ArticleEditor.tsx:33-36 | a space put in front of the tag text changes no tag |
| Editor.ParseOneTag | src/components/ArticleEditor.tsx:33-36 | the text of a single well-formed tag parses to that tag alone |
| Editor.ParseFormatRoundTrip | src/components/ArticleEditor.tsx:15 | parsing the tags joined with `, ` gives back the list whenever every tag is well-formed |
| Editor.InitialForm | src/components/ArticleEditor.tsx:12-15 | without an article the form starts blank in `Getting Started`; with one it starts with its title, content and joined tags, and its category unless that is empty |
| Editor.OpenForm | src/components/ArticleEditor.tsx:17-24 | once the editor has opened, the form is blank in `Getting Started`, or holds exactly the article's title, content, category and joined tags |
| Editor.Submit | src/components/ArticleEditor.tsx:26-46 | the draft carries the edited article's id (none when creating), the form's title, content and category, the slug of the title and the tags parsed from the tag text; the slug and each tag are well-formed |
| Editor.SubmitUnchanged | src/components/ArticleEditor.tsx:26-46 | submitting an article's form unchanged writes back its own fields and tags, with the slug derived from its title |
| Editor.SubmitBlank | src/components/ArticleEditor.tsx:26-46 | submitting a blank new-article form gives a draft without id, with empty title and slug, in `Getting Started`, without tags (the page's `required` inputs stop this submission before the handler) |
| Editor.DefaultCategoryOffered | src/components/ArticleEditor.tsx:48-57 | the default category is the selector's first choice, and the choices are distinct |
| Controller.SaveRequest | src/App.tsx:100-123 | a draft with a non-empty id gives an update of that row with the draft's fields and the current time; any other draft gives an insert of its fields |
| Controller.SubmitWrites | src/App.tsx:98-123 | saving the form of an existing article updates that article's row; saving a new-article form inserts one; the row gets the form's text, the slug of its title and the tags parsed from its tag text |
| Controller.ViewsWrite | src/App.tsx:80-85 | the increment writes nothing exactly when no article has the id, and otherwise writes the count of an article with that id plus one |
| Controller.Reopened | src/App.tsx:208-214 | a present article fills the editor with its own values; with none, an editor already open keeps its fields and a newly opened one is blank in `Getting Started` |
| Controller.NewWhileEditingCopies | src/components/ArticleEditor.tsx:17-24 | after "New Article" on the edit screen the form still holds the article, and submitting it inserts a copy with the article's fields and tags |
| Controller.Wiki.Render | src/App.tsx:162-214 | a spinner exactly while loading; otherwise the list with the visible articles, the selected article, or the editor with its current fields, by view |
| Controller.Wiki.constructor | src/App.tsx:12-19 | the initial state: nothing fetched, no search text, selector `all`, the list view, nothing selected, loading, a blank form |
| Controller.Wiki.FetchArticles | src/App.tsx:29-50 | selects the rows; rows replace the articles and their derived categories, any other reply leaves both; loading is over afterwards; nothing else changes |
| Controller.Wiki.IncrementViews | src/App.tsx:78-96 | writes the found count plus one when an article has the id; the collection is incremented only when that write succeeds; nothing else changes |
| Controller.Wiki.SelectArticle | src/App.tsx:72-76 | increments as above, then shows the article as passed in, whatever became of the increment |
| Controller.Wiki.EditArticle | src/App.tsx:200-203 | switches to the editor on the given article, whose fields fill the form; nothing else changes |
| Controller.Wiki.SaveArticle | src/App.tsx:98-135 | writes the draft; on success reloads and returns to the list with nothing selected; on failure leaves view, selection and articles unchanged |
| Controller.Wiki.DeleteArticle | src/App.tsx:137-150 | deletes the row; on success reloads and returns to the list with nothing selected; on failure leaves view, selection and articles unchanged |
| Controller.Wiki.NewArticle | src/App.tsx:152-155 | switches to the create view with nothing selected; the form is blank unless an editor was already open, which keeps its fields; nothing else changes |
| Controller.Wiki.Back | src/App.tsx:157-160 | returns to the list with nothing selected; nothing else changes |
| Controller.Wiki.SetSearchQuery | src/App.tsx:181 | sets the search text; the visible articles become those that pass with it |
| Controller.Wiki.SetSelectedCategory | src/App.tsx:183 | sets the category selector; the visible articles become those that pass with it |
| Controller.Wiki.FillForm | src/components/ArticleEditor.tsx:83 | typing into the inputs replaces the form's fields; nothing else changes |
| Controller.Wiki.SubmitForm | src/App.tsx:209-211 | the draft made from the form and the selected article is saved as by the save handler, with the same success and failure outcomes |

## Left out

- Database: the client set-up and every call to the hosted database are not part of this model. Each call is a logged `Request`, and its reply is a handler parameter.
- Row order: the `updated_at` descending order of the select is applied by the database. Fetched rows are taken in the order given.
- Concurrency: asynchronous interleaving is not modelled. Each handler runs to completion before the next event. This leaves out stale closures and the read-modify-write race of the view count between sessions.
- React: rendering and effect scheduling are left out. The filtered list is derived from the state (`Wiki.Visible`) instead of being stored and refreshed by an effect. `Wiki.Render` gives only the main screen: no header, markup or styling.
- Timestamps: `new Date().toISOString()` is the parameter `now`. Date display is left out.
- Dialogs and logging: `alert`, `confirm` and `console.error` produce no state and are left out.
- Strings.Lower: lower-cases ASCII letters only. Full Unicode case mapping is not modelled, because it depends on tables outside the program.
- Strings.IsWhitespace: white space is the fixed ECMAScript WhiteSpace and LineTerminator list, with the Unicode space separators written out.
- Records.Article: `views` is an unbounded natural number. JavaScript's limit on exact integers in floating point is not modelled.
- Editor.Submit: the browser's `required` check on the title and content inputs is form markup and is not modelled. The model accepts empty titles and contents.
- Editor.CategoryChoices: the category selector's choices are listed but not enforced on the draft. The selector offers only these, but the model accepts any category, as the save handler does.
- Controller.Reopened: the editor's effect runs when the article object changes, and the model compares articles by value. The two differ only when the same article is edited again while its editor is open, which no screen offers.
- Controller.Wiki.DeleteArticle: the deleted row disappears from the list only when the reload returns rows without it. That depends on the database.

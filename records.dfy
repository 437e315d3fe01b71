/**
 * The record shapes the wiki exchanges with its hosted database
 * (src/lib/supabase.ts): a stored article, the five fields an editor
 * writes, and the draft the editor hands to the application.
 */
module Records {

  import opened Wrappers

  /** A row of `wiki_articles`. Timestamps are opaque strings set by the database. */
  datatype Article = Article(
    id: string,
    title: string,
    slug: string,
    content: string,
    category: string,
    tags: seq<string>,
    createdAt: string,
    updatedAt: string,
    views: nat)

  /** The fields an insert or an update sends. */
  datatype Fields = Fields(
    title: string,
    slug: string,
    content: string,
    category: string,
    tags: seq<string>)

  /** `Partial<WikiArticle>` as the editor builds it: the id of the edited article, if any, and the fields. */
  datatype Draft = Draft(id: Option<string>, fields: Fields)
}

/**
 * The data side of the article editor (src/components/ArticleEditor.tsx):
 * the form it opens with, the slug it derives from the title, the tag list
 * it parses from the comma-separated tag field, and the draft it submits.
 */
module Editor {

  import opened Wrappers
  import opened Strings
  import opened Records
  import opened Sequences

  /** The category a new article starts in. */
  const DefaultCategory: string := "Getting Started"

  /** The choices the category selector offers. */
  const CategoryChoices: seq<string> := [
    "Getting Started", "Nodes", "Workflows", "Integrations",
    "Credentials", "Best Practices", "Troubleshooting", "Advanced"
  ]

  /** The category a new article starts in is one of the selector's choices. */
  lemma DefaultCategoryOffered()
    ensures DefaultCategory in CategoryChoices && CategoryChoices[0] == DefaultCategory
    ensures forall i, j :: 0 <= i < j < |CategoryChoices| ==> CategoryChoices[i] != CategoryChoices[j]
  {
  }

  // ---------------------------------------------------------------------
  // Slug

  /** The characters `[a-z0-9]` the slug keeps. */
  predicate IsSlugChar(c: char) {
    'a' <= c <= 'z' || '0' <= c <= '9'
  }

  /** `s` never has two `-` next to each other. */
  predicate NoDoubleDash(s: string) {
    forall i :: 0 < i < |s| ==> s[i - 1] != '-' || s[i] != '-'
  }

  /** The shape every derived slug has. */
  predicate IsSlug(s: string) {
    && (forall i :: 0 <= i < |s| ==> IsSlugChar(s[i]) || s[i] == '-')
    && NoDoubleDash(s)
    && (s != [] ==> s[0] != '-' && s[|s| - 1] != '-')
  }

  /** `.replace(/[^a-z0-9]+/g, '-')`: each maximal run of other characters becomes one `-`. */
  function CollapseRuns(s: string): string {
    if s == [] then []
    else if IsSlugChar(s[0]) then [s[0]] + CollapseRuns(s[1..])
    else if |s| > 1 && !IsSlugChar(s[1]) then CollapseRuns(s[1..])
    else "-" + CollapseRuns(s[1..])
  }

  /**
   * After the replacement only `[a-z0-9-]` is left, no two `-` are adjacent,
   * and the result starts with `-` exactly when the input starts with a run.
   */
  lemma {:induction false} CollapseRunsShape(s: string)
    ensures var r := CollapseRuns(s);
      && (forall i :: 0 <= i < |r| ==> IsSlugChar(r[i]) || r[i] == '-')
      && NoDoubleDash(r)
      && (s == [] <==> r == [])
      && (r != [] ==> (r[0] == '-' <==> !IsSlugChar(s[0])))
  {
    if s != [] {
      CollapseRunsShape(s[1..]);
    }
  }

  /** `.replace(/(^-|-$)/g, '')`: drops a `-` at the start and one at the end. */
  function StripDashes(s: string): string {
    var t := if s != [] && s[0] == '-' then s[1..] else s;
    if t != [] && t[|t| - 1] == '-' then t[..|t| - 1] else t
  }

  /** The slug `handleSubmit` derives from the title. */
  function Slugify(title: string): (slug: string)
    ensures IsSlug(slug)
  {
    CollapseRunsShape(Lower(title));
    StripDashes(CollapseRuns(Lower(title)))
  }

  /** The letters and digits of `s`, in order. */
  function Alnums(s: string): string {
    if s == [] then [] else (if IsSlugChar(s[0]) then [s[0]] else []) + Alnums(s[1..])
  }

  /** The letters and digits of a concatenation are those of each part. */
  lemma {:induction false} AlnumsAppend(a: string, b: string)
    ensures Alnums(a + b) == Alnums(a) + Alnums(b)
  {
    if a != [] {
      assert (a + b)[1..] == a[1..] + b;
      AlnumsAppend(a[1..], b);
    } else {
      assert a + b == b;
    }
  }

  /** The run replacement keeps every letter and digit, in order. */
  lemma {:induction false} CollapseRunsKeepsAlnums(s: string)
    ensures Alnums(CollapseRuns(s)) == Alnums(s)
  {
    if s != [] {
      CollapseRunsKeepsAlnums(s[1..]);
      if IsSlugChar(s[0]) {
        AlnumsAppend([s[0]], CollapseRuns(s[1..]));
      } else if !(|s| > 1 && !IsSlugChar(s[1])) {
        AlnumsAppend("-", CollapseRuns(s[1..]));
      }
    }
  }

  /** Stripping the edge dashes keeps every letter and digit. */
  lemma StripDashesKeepsAlnums(s: string)
    ensures Alnums(StripDashes(s)) == Alnums(s)
  {
    var t := if s != [] && s[0] == '-' then s[1..] else s;
    if s != [] && s[0] == '-' {
      AlnumsAppend("-", t);
      assert s == "-" + t;
    }
    if t != [] && t[|t| - 1] == '-' {
      AlnumsAppend(t[..|t| - 1], "-");
      assert t == t[..|t| - 1] + "-";
    }
  }

  /** The slug holds exactly the letters and digits of the lower-cased title, in order. */
  lemma SlugKeepsLettersAndDigits(title: string)
    ensures Alnums(Slugify(title)) == Alnums(Lower(title))
  {
    CollapseRunsKeepsAlnums(Lower(title));
    StripDashesKeepsAlnums(CollapseRuns(Lower(title)));
  }

  /** Text of `[a-z0-9-]` without `--` passes the run replacement unchanged. */
  lemma {:induction false} CollapseRunsOfSlug(s: string)
    requires forall i :: 0 <= i < |s| ==> IsSlugChar(s[i]) || s[i] == '-'
    requires NoDoubleDash(s)
    ensures CollapseRuns(s) == s
  {
    if s != [] {
      assert NoDoubleDash(s[1..]) by {
        forall i | 0 < i < |s[1..]| ensures s[1..][i - 1] != '-' || s[1..][i] != '-' {
          assert s[1..][i - 1] == s[i] && s[1..][i] == s[i + 1];
        }
      }
      CollapseRunsOfSlug(s[1..]);
      if !IsSlugChar(s[0]) && |s| > 1 {
        assert s[0] == '-' && s[1] != '-';
      }
      assert s == [s[0]] + s[1..];
    }
  }

  /** A slug is its own slug. */
  lemma SlugOfSlug(s: string)
    requires IsSlug(s)
    ensures Slugify(s) == s
  {
    LowerOfLower(s);
    CollapseRunsOfSlug(s);
  }

  /** Deriving the slug a second time changes nothing. */
  lemma SlugIdempotent(title: string)
    ensures Slugify(Slugify(title)) == Slugify(title)
  {
    SlugOfSlug(Slugify(title));
  }

  /** A word of letters and digits passes through the replacement unchanged. */
  lemma {:induction false} CollapseRunsWord(w: string, rest: string)
    requires forall i :: 0 <= i < |w| ==> IsSlugChar(w[i])
    ensures CollapseRuns(w + rest) == w + CollapseRuns(rest)
  {
    if w == [] {
      assert w + rest == rest;
    } else {
      assert (w + rest)[1..] == w[1..] + rest;
      CollapseRunsWord(w[1..], rest);
      assert w == [w[0]] + w[1..];
    }
  }

  /** A whole run of other characters, up to the next letter or digit or the end, becomes one `-`. */
  lemma {:induction false} CollapseRunsRun(g: string, rest: string)
    requires g != [] && forall i :: 0 <= i < |g| ==> !IsSlugChar(g[i])
    requires rest == [] || IsSlugChar(rest[0])
    ensures CollapseRuns(g + rest) == "-" + CollapseRuns(rest)
  {
    assert (g + rest)[1..] == g[1..] + rest;
    if |g| > 1 {
      CollapseRunsRun(g[1..], rest);
    } else {
      assert g[1..] + rest == rest;
    }
  }

  /** A worked title: punctuation and the space between the words become one `-`, the trailing run is dropped. */
  lemma SlugOfHelloWorld()
    ensures Slugify("Hello, World!!") == "hello-world"
  {
    HelloWorldLowered();
    HelloWorldCollapsed();
  }

  lemma HelloWorldLowered()
    ensures Lower("Hello, World!!") == "hello" + (", " + ("world" + "!!"))
  {
    LowerAppend("Hello", ", " + ("World" + "!!"));
    LowerAppend(", ", "World" + "!!");
    LowerAppend("World", "!!");
    HelloLowered();
    WorldLowered();
    LowerOfLower(", ");
    LowerOfLower("!!");
    assert "Hello, World!!" == "Hello" + (", " + ("World" + "!!"));
  }

  lemma HelloLowered()
    ensures Lower("Hello") == "hello"
  {
    LowerShape("Hello");
  }

  lemma WorldLowered()
    ensures Lower("World") == "world"
  {
    LowerShape("World");
  }

  lemma HelloWorldCollapsed()
    ensures CollapseRuns("hello" + (", " + ("world" + "!!"))) == "hello-world-"
  {
    CollapseRunsRun("!!", "");
    assert "!!" + "" == "!!";
    CollapseRunsWord("world", "!!");
    CollapseRunsRun(", ", "world" + "!!");
    CollapseRunsWord("hello", ", " + ("world" + "!!"));
  }

  /** A worked title: the runs of spaces and dashes around the word disappear altogether. */
  lemma SlugOfPaddedFoo()
    ensures Slugify("  --Foo--  ") == "foo"
  {
    PaddedFooLowered();
    PaddedFooCollapsed();
  }

  lemma PaddedFooLowered()
    ensures Lower("  --Foo--  ") == "  --" + ("foo" + "--  ")
  {
    LowerAppend("  --", "Foo" + "--  ");
    LowerAppend("Foo", "--  ");
    FooLowered();
    PaddingLowered();
    assert "  --Foo--  " == "  --" + ("Foo" + "--  ");
  }

  lemma FooLowered()
    ensures Lower("Foo") == "foo"
  {
    LowerShape("Foo");
  }

  lemma PaddingLowered()
    ensures Lower("  --") == "  --" && Lower("--  ") == "--  "
  {
    LowerOfLower("  --");
    LowerOfLower("--  ");
  }

  lemma PaddedFooCollapsed()
    ensures CollapseRuns("  --" + ("foo" + "--  ")) == "-foo-"
  {
    CollapseRunsRun("--  ", "");
    assert "--  " + "" == "--  ";
    CollapseRunsWord("foo", "--  ");
    CollapseRunsRun("  --", "foo" + "--  ");
  }

  // ---------------------------------------------------------------------
  // Tags

  /** The shape of every parsed tag: not empty, not padded with white space, no comma. */
  predicate IsTag(t: string) {
    t != [] && !IsWhitespace(t[0]) && !IsWhitespace(t[|t| - 1]) && ',' !in t
  }

  /** `pieces.map(tag => tag.trim())` */
  function TrimEach(pieces: seq<string>): seq<string> {
    if pieces == [] then [] else [Trim(pieces[0])] + TrimEach(pieces[1..])
  }

  /** Trimming each piece keeps the number of pieces and trims each in its place. */
  lemma {:induction false} TrimEachAt(pieces: seq<string>)
    ensures |TrimEach(pieces)| == |pieces|
    ensures forall i :: 0 <= i < |pieces| ==> TrimEach(pieces)[i] == Trim(pieces[i])
  {
    if pieces != [] {
      TrimEachAt(pieces[1..]);
    }
  }

  /** `pieces.filter(tag => tag.length > 0)` */
  function DropEmpty(pieces: seq<string>): (r: seq<string>)
    ensures forall t :: t in r <==> t in pieces && t != []
  {
    if pieces == [] then []
    else (if pieces[0] == [] then [] else [pieces[0]]) + DropEmpty(pieces[1..])
  }

  /** Dropping the empty pieces keeps the others in their order, each as often as it occurs. */
  lemma {:induction false} DropEmptyShape(pieces: seq<string>)
    ensures Subsequence(DropEmpty(pieces), pieces)
    ensures forall t :: multiset(DropEmpty(pieces))[t] == if t == [] then 0 else multiset(pieces)[t]
  {
    if pieces != [] {
      DropEmptyShape(pieces[1..]);
      assert pieces == [pieces[0]] + pieces[1..];
      if pieces[0] != [] {
        assert DropEmpty(pieces) == [pieces[0]] + DropEmpty(pieces[1..]);
      } else {
        assert DropEmpty(pieces) == DropEmpty(pieces[1..]);
      }
    }
  }

  /** Trimming each piece of two lists one after the other is trimming each list. */
  lemma {:induction false} TrimEachAppend(a: seq<string>, b: seq<string>)
    ensures TrimEach(a + b) == TrimEach(a) + TrimEach(b)
  {
    if a != [] {
      assert (a + b)[1..] == a[1..] + b;
      assert (a + b)[0] == a[0];
      TrimEachAppend(a[1..], b);
    } else {
      assert a + b == b;
    }
  }

  /** Dropping the empty pieces of two lists one after the other is dropping them from each list. */
  lemma {:induction false} DropEmptyAppend(a: seq<string>, b: seq<string>)
    ensures DropEmpty(a + b) == DropEmpty(a) + DropEmpty(b)
  {
    if a != [] {
      assert (a + b)[1..] == a[1..] + b;
      DropEmptyAppend(a[1..], b);
    } else {
      assert a + b == b;
    }
  }

  /** The tag list `handleSubmit` parses: split on `,`, trim each piece, drop the empty ones. */
  function ParseTags(text: string): (tags: seq<string>)
    ensures forall i :: 0 <= i < |tags| ==> IsTag(tags[i])
  {
    var pieces := Split(text, ',');
    SplitPieces(text, ',');
    var trimmed := TrimEach(pieces);
    TrimEachAt(pieces);
    forall i | 0 <= i < |pieces| {
      TrimShape(pieces[i]);
    }
    assert forall t :: t in trimmed ==> ',' !in t && (t == [] || (!IsWhitespace(t[0]) && !IsWhitespace(t[|t| - 1])));
    var tags := DropEmpty(trimmed);
    assert forall i :: 0 <= i < |tags| ==> IsTag(tags[i]) by {
      forall i | 0 <= i < |tags| ensures IsTag(tags[i]) {
        assert tags[i] in tags;
      }
    }
    tags
  }

  /** `tags.join(', ')`, the text the tag field shows. */
  function FormatTags(tags: seq<string>): string {
    Join(tags, ", ")
  }

  /** Tags keep their order: the tags before a comma come before those after it. */
  lemma ParseTagsAround(a: string, b: string)
    ensures ParseTags(a + "," + b) == ParseTags(a) + ParseTags(b)
  {
    SplitAround(a, b, ',');
    TrimEachAppend(Split(a, ','), Split(b, ','));
    DropEmptyAppend(TrimEach(Split(a, ',')), TrimEach(Split(b, ',')));
  }

  /** A space after a comma does not change what is parsed. */
  lemma ParseTagsLeadingSpace(text: string)
    ensures ParseTags(" " + text) == ParseTags(text)
  {
    var s := Split(text, ',');
    assert (" " + text)[1..] == text;
    assert Split(" " + text, ',') == [" " + s[0]] + s[1..];
    TrimLeadingSpace(s[0]);
    assert s == [s[0]] + s[1..];
    TrimEachAppend([" " + s[0]], s[1..]);
    TrimEachAppend([s[0]], s[1..]);
  }

  /** A single well-formed tag parses to itself. */
  lemma ParseOneTag(t: string)
    requires IsTag(t)
    ensures ParseTags(t) == [t]
  {
    SplitWithoutSeparator(t, ',');
    TrimOfTrimmed(t);
    assert TrimEach([t]) == [t];
    assert DropEmpty([t]) == [t];
  }

  /** Parsing the displayed tag text gives back the article's tags, when each is a well-formed tag. */
  lemma {:induction false} ParseFormatRoundTrip(tags: seq<string>)
    requires forall i :: 0 <= i < |tags| ==> IsTag(tags[i])
    ensures ParseTags(FormatTags(tags)) == tags
  {
    if |tags| == 1 {
      ParseOneTag(tags[0]);
    } else if |tags| > 1 {
      var rest := FormatTags(tags[1..]);
      assert FormatTags(tags) == tags[0] + "," + (" " + rest);
      ParseTagsAround(tags[0], " " + rest);
      ParseTagsLeadingSpace(rest);
      ParseFormatRoundTrip(tags[1..]);
      ParseOneTag(tags[0]);
      assert tags == [tags[0]] + tags[1..];
    }
  }

  // ---------------------------------------------------------------------
  // Form and draft

  /** The editor's four input fields. */
  datatype Form = Form(title: string, content: string, category: string, tagsText: string)

  /** JavaScript `value || fallback` for an optional string: an absent or empty value gives the fallback. */
  function OrElse(value: Option<string>, fallback: string): string {
    if value.Some? && value.value != "" then value.value else fallback
  }

  /** The `useState` initial values: `article?.title || ''` and so on. */
  function InitialForm(article: Option<Article>): (f: Form)
    ensures article.None? ==> f == Form("", "", DefaultCategory, "")
    ensures article.Some? ==> f.title == article.value.title && f.content == article.value.content
    ensures article.Some? ==> f.tagsText == FormatTags(article.value.tags)
    ensures article.Some? ==> f.category == if article.value.category == "" then DefaultCategory else article.value.category
  {
    match article
    case None =>
      Form(OrElse(None, ""), OrElse(None, ""), OrElse(None, DefaultCategory), OrElse(None, ""))
    case Some(a) =>
      Form(OrElse(Some(a.title), ""), OrElse(Some(a.content), ""), OrElse(Some(a.category), DefaultCategory),
           OrElse(Some(FormatTags(a.tags)), ""))
  }

  /** The effect that copies a present article into the fields whenever the article changes. */
  function Synced(f: Form, article: Option<Article>): Form {
    match article
    case None => f
    case Some(a) => Form(a.title, a.content, a.category, OrElse(Some(FormatTags(a.tags)), ""))
  }

  /** The fields once the editor has opened: blank with the default category, or the article's own values. */
  function OpenForm(article: Option<Article>): (f: Form)
    ensures article.None? ==> f == Form("", "", DefaultCategory, "")
    ensures article.Some? ==> f == Form(article.value.title, article.value.content, article.value.category,
                                        FormatTags(article.value.tags))
  {
    Synced(InitialForm(article), article)
  }

  /** `handleSubmit`: the draft passed to `onSave`. */
  function Submit(f: Form, article: Option<Article>): (d: Draft)
    ensures d.id == if article.Some? then Some(article.value.id) else None
    ensures d.fields.title == f.title && d.fields.content == f.content && d.fields.category == f.category
    ensures d.fields.slug == Slugify(f.title) && IsSlug(d.fields.slug)
    ensures d.fields.tags == ParseTags(f.tagsText) && forall i :: 0 <= i < |d.fields.tags| ==> IsTag(d.fields.tags[i])
  {
    var id := match article case Some(a) => Some(a.id) case None => None;
    Draft(id, Fields(f.title, Slugify(f.title), f.content, f.category, ParseTags(f.tagsText)))
  }

  /** Submitting the editor unchanged writes back the article's own fields, with the slug re-derived. */
  lemma SubmitUnchanged(a: Article)
    requires forall i :: 0 <= i < |a.tags| ==> IsTag(a.tags[i])
    ensures Submit(OpenForm(Some(a)), Some(a))
         == Draft(Some(a.id), Fields(a.title, Slugify(a.title), a.content, a.category, a.tags))
  {
    ParseFormatRoundTrip(a.tags);
  }

  /**
   * Submitting a blank new-article form yields a draft without id, in the
   * default category, without tags. The browser's `required` check on the
   * title and content inputs keeps the page from submitting this form; the
   * lemma states what the submit handler itself would make of it.
   */
  lemma SubmitBlank()
    ensures Submit(OpenForm(None), None) == Draft(None, Fields("", "", "", DefaultCategory, []))
  {
    assert Split("", ',') == [""];
  }
}

/**
  * The article entity. `Record` is the persisted view that the listing
  * filters read; `Article` is the mutable entity with one setter per field.
  */
module Articles {
  import opened Options

  /** Largest title length accepted by the entity's size constraint. */
  const MaxTitleLength := 100

  /** A stored article: every column is non-null. `content` is never filtered. */
  datatype Record = Record(title: string, slug: string, content: string, author: string, publish: string)

  /** The values of an article's fields; a null Java field is `None`. */
  datatype ArticleFields = ArticleFields(
    id: Option<string>,
    title: Option<string>,
    slug: Option<string>,
    content: Option<string>,
    author: Option<string>,
    publish: Option<string>)

  const NoFields := ArticleFields(None, None, None, None, None, None)

  /** A mutable article entity. Its fields start out null, as Java's do. */
  class Article {
    var id: Option<string>
    var title: Option<string>
    var slug: Option<string>
    var content: Option<string>
    var author: Option<string>
    var publish: Option<string>

    function Fields(): ArticleFields
      reads this
    {
      ArticleFields(id, title, slug, content, author, publish)
    }

    constructor ()
      ensures Fields() == NoFields
    {
      id, title, slug, content, author, publish := None, None, None, None, None, None;
    }

    /** An article the store accepts: no null column and a title of at most 100 characters. */
    predicate Persistable()
      reads this
    {
      && id.Some? && title.Some? && slug.Some? && content.Some? && author.Some? && publish.Some?
      && |title.value| <= MaxTitleLength
    }

    /** The stored record of a persistable article. */
    function ToRecord(): (r: Record)
      reads this
      requires Persistable()
      ensures Some(r.title) == title && Some(r.slug) == slug && Some(r.content) == content
      ensures Some(r.author) == author && Some(r.publish) == publish
      ensures |r.title| <= MaxTitleLength
    {
      Record(title.value, slug.value, content.value, author.value, publish.value)
    }

    method SetId(v: Option<string>)
      modifies this
      ensures Fields() == old(Fields()).(id := v)
    {
      id := v;
    }

    method SetTitle(v: Option<string>)
      modifies this
      ensures Fields() == old(Fields()).(title := v)
    {
      title := v;
    }

    method SetSlug(v: Option<string>)
      modifies this
      ensures Fields() == old(Fields()).(slug := v)
    {
      slug := v;
    }

    method SetContent(v: Option<string>)
      modifies this
      ensures Fields() == old(Fields()).(content := v)
    {
      content := v;
    }

    method SetAuthor(v: Option<string>)
      modifies this
      ensures Fields() == old(Fields()).(author := v)
    {
      author := v;
    }

    /** The publish value is an uninterpreted string, stored as given. */
    method SetPublish(v: Option<string>)
      modifies this
      ensures Fields() == old(Fields()).(publish := v)
    {
      publish := v;
    }
  }
}

/**
  * The two domain objects of the class-based listing filter: the mutable
  * `ArticleCriteria` bean and the reusable `ArticleSpecification` that turns
  * the criteria it holds into a predicate.
  */
module Domain {
  import opened Options
  import opened Text
  import opened Query

  /** Five nullable filter strings, each with a getter and a setter that stores its argument unchecked. */
  class ArticleCriteria {
    var title: Option<string>
    var author: Option<string>
    var slug: Option<string>
    var publishFrom: Option<string>
    var publishTo: Option<string>

    /** The filter values currently held. */
    function Value(): Criteria
      reads this
    {
      Criteria(title, author, slug, publishFrom, publishTo)
    }

    /** A new criteria object holds no filter: all five fields are null. */
    constructor ()
      ensures Value() == NoCriteria
    {
      title, author, slug, publishFrom, publishTo := None, None, None, None, None;
    }

    function GetTitle(): Option<string> reads this { title }
    function GetAuthor(): Option<string> reads this { author }
    function GetSlug(): Option<string> reads this { slug }
    function GetPublishFrom(): Option<string> reads this { publishFrom }
    function GetPublishTo(): Option<string> reads this { publishTo }

    method SetTitle(v: Option<string>)
      modifies this
      ensures GetTitle() == v
      ensures Value() == old(Value()).(title := v)
    {
      title := v;
    }

    method SetAuthor(v: Option<string>)
      modifies this
      ensures GetAuthor() == v
      ensures Value() == old(Value()).(author := v)
    {
      author := v;
    }

    method SetSlug(v: Option<string>)
      modifies this
      ensures GetSlug() == v
      ensures Value() == old(Value()).(slug := v)
    {
      slug := v;
    }

    method SetPublishFrom(v: Option<string>)
      modifies this
      ensures GetPublishFrom() == v
      ensures Value() == old(Value()).(publishFrom := v)
    {
      publishFrom := v;
    }

    method SetPublishTo(v: Option<string>)
      modifies this
      ensures GetPublishTo() == v
      ensures Value() == old(Value()).(publishTo := v)
    {
      publishTo := v;
    }
  }

  /** A specification object bound, at construction, to one criteria object. */
  class ArticleSpecification {
    const articleCriteria: ArticleCriteria

    constructor (articleCriteria: ArticleCriteria)
      ensures this.articleCriteria == articleCriteria
    {
      this.articleCriteria := articleCriteria;
    }

    /**
      * Starts from `conjunction()` and ANDs one condition for each filter of
      * the held criteria that is non-null and non-empty. Reads the criteria
      * and changes nothing.
      */
    method ToPredicate() returns (p: Predicate)
      ensures Conditions(p) == Translate(articleCriteria.Value())
      ensures forall r :: Eval(p, r) <==> Matches(articleCriteria.Value(), r)
    {
      ghost var c := articleCriteria.Value();
      p := Conjunction;
      if Present(articleCriteria.GetTitle()) {
        p := And(p, LikeLower(TitleField, "%" + Lower(articleCriteria.GetTitle().value) + "%"));
      }
      assert Conditions(p) == TextCondition(TitleField, c.title);
      if Present(articleCriteria.GetAuthor()) {
        p := And(p, LikeLower(AuthorField, "%" + Lower(articleCriteria.GetAuthor().value) + "%"));
      }
      assert Conditions(p) == TextCondition(TitleField, c.title) + TextCondition(AuthorField, c.author);
      if Present(articleCriteria.GetSlug()) {
        p := And(p, Equal(SlugField, articleCriteria.GetSlug().value));
      }
      assert Conditions(p) == TextCondition(TitleField, c.title) + TextCondition(AuthorField, c.author)
        + EqualCondition(SlugField, c.slug);
      if Present(articleCriteria.GetPublishFrom()) {
        p := And(p, GreaterOrEqual(PublishField, articleCriteria.GetPublishFrom().value));
      }
      assert Conditions(p) == TextCondition(TitleField, c.title) + TextCondition(AuthorField, c.author)
        + EqualCondition(SlugField, c.slug) + LowerBoundCondition(PublishField, c.publishFrom);
      if Present(articleCriteria.GetPublishTo()) {
        p := And(p, LessOrEqual(PublishField, articleCriteria.GetPublishTo().value));
      }
      assert Conditions(p) == Translate(c);
      forall r ensures Eval(p, r) <==> Matches(c, r) {
        EvalIsAllHold(p, r);
      }
    }
  }
}

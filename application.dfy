/**
  * The listing endpoint: an inline predicate built from the five request
  * parameters, the same filter built through `ArticleCriteria` and
  * `ArticleSpecification`, both queried with the same page request; and the
  * ten articles seeded at start-up, used as a fixture.
  */
module Application {
  import opened Options
  import opened Text
  import opened Articles
  import opened Query
  import opened Domain
  import opened Paging

  /**
    * The inline specification of the listing: starts from `conjunction()`
    * and ANDs one condition for each parameter that is non-null and non-empty.
    */
  method LambdaToPredicate(title: Option<string>, author: Option<string>, slug: Option<string>,
                           publishFrom: Option<string>, publishTo: Option<string>)
    returns (p: Predicate)
    ensures Conditions(p) == Translate(Criteria(title, author, slug, publishFrom, publishTo))
    ensures forall r :: Eval(p, r) <==> Matches(Criteria(title, author, slug, publishFrom, publishTo), r)
  {
    ghost var c := Criteria(title, author, slug, publishFrom, publishTo);
    p := Conjunction;
    if title.Some? && title.value != [] {
      p := And(p, LikeLower(TitleField, "%" + Lower(title.value) + "%"));
    }
    assert Conditions(p) == TextCondition(TitleField, c.title);
    if author.Some? && author.value != [] {
      p := And(p, LikeLower(AuthorField, "%" + Lower(author.value) + "%"));
    }
    assert Conditions(p) == TextCondition(TitleField, c.title) + TextCondition(AuthorField, c.author);
    if slug.Some? && slug.value != [] {
      p := And(p, Equal(SlugField, slug.value));
    }
    assert Conditions(p) == TextCondition(TitleField, c.title) + TextCondition(AuthorField, c.author)
      + EqualCondition(SlugField, c.slug);
    if publishFrom.Some? && publishFrom.value != [] {
      p := And(p, GreaterOrEqual(PublishField, publishFrom.value));
    }
    assert Conditions(p) == TextCondition(TitleField, c.title) + TextCondition(AuthorField, c.author)
      + EqualCondition(SlugField, c.slug) + LowerBoundCondition(PublishField, c.publishFrom);
    if publishTo.Some? && publishTo.value != [] {
      p := And(p, LessOrEqual(PublishField, publishTo.value));
    }
    assert Conditions(p) == Translate(c);
    forall r ensures Eval(p, r) <==> Matches(c, r) {
      EvalIsAllHold(p, r);
    }
  }

  /**
    * The listing request: query the store with the inline predicate, then
    * fill a fresh `ArticleCriteria` from the same parameters, wrap it in an
    * `ArticleSpecification` and query again with the same page request.
    * Both answers are the same page of the records that match the filters.
    */
  method GetAll(store: seq<Record>, nextPage: int, maxNumber: int,
                title: Option<string>, author: Option<string>, slug: Option<string>,
                publishFrom: Option<string>, publishTo: Option<string>)
    returns (allWithLambda: Page, allWithClass: Page)
    requires ValidPageRequest(nextPage, maxNumber)
    ensures allWithLambda == allWithClass
    ensures allWithLambda == PageOf(Filter(store, r => Matches(Criteria(title, author, slug, publishFrom, publishTo), r)),
                                    nextPage, maxNumber)
  {
    var specification := LambdaToPredicate(title, author, slug, publishFrom, publishTo);
    allWithLambda := FindAll(store, specification, nextPage, maxNumber);
    var articleCriteria := new ArticleCriteria();
    articleCriteria.SetTitle(title);
    articleCriteria.SetAuthor(author);
    articleCriteria.SetSlug(slug);
    articleCriteria.SetPublishFrom(publishFrom);
    articleCriteria.SetPublishTo(publishTo);
    var articleSpecification := new ArticleSpecification(articleCriteria);
    var classPredicate := articleSpecification.ToPredicate();
    allWithClass := FindAll(store, classPredicate, nextPage, maxNumber);
    ConditionsDeterminePredicate(specification, classPredicate);
    FilterExtensional(store, r => Eval(specification, r),
                      r => Matches(Criteria(title, author, slug, publishFrom, publishTo), r));
  }

  /** The publish value every seeded article carries. */
  const SeedPublish := "2010-01-01T12:00:00+01:00"

  /** Seeded article `i`, for `i` from 1 to 10. */
  function SeedRecord(i: nat): Record {
    Record("Article Title " + NatToString(i), "article-title-" + NatToString(i),
           "Article Content " + NatToString(i), "Article Author " + NatToString(i), SeedPublish)
  }

  /** The ten seeded articles, in the order they are saved. */
  function SeedFixture(): (s: seq<Record>)
    ensures |s| == 10
  {
    seq(10, k requires 0 <= k < 10 => SeedRecord(k + 1))
  }

  /**
    * Start-up seeding: ten articles, each built with the setters and saved.
    * `ids` stands for the random identifiers, all distinct; with a fresh id,
    * saving appends to the store.
    */
  method ApplicationReadyEvent(store: seq<Record>, ids: seq<string>) returns (saved: seq<Record>)
    requires |ids| == 10
    requires forall i, j :: 0 <= i < j < |ids| ==> ids[i] != ids[j]
    ensures saved == store + SeedFixture()
  {
    saved := store;
    for i := 1 to 11
      invariant saved == store + SeedFixture()[..i - 1]
    {
      var article := new Article();
      article.SetId(Some(ids[i - 1]));
      article.SetTitle(Some("Article Title " + NatToString(i)));
      article.SetSlug(Some("article-title-" + NatToString(i)));
      article.SetContent(Some("Article Content " + NatToString(i)));
      article.SetAuthor(Some("Article Author " + NatToString(i)));
      article.SetPublish(Some(SeedPublish));
      saved := saved + [article.ToRecord()];
      assert SeedFixture()[..i] == SeedFixture()[..i - 1] + [SeedRecord(i)];
    }
    assert SeedFixture()[..10] == SeedFixture();
  }

  /** The title-only filter "title 5". */
  const TitleFive := Criteria(Some("title 5"), None, None, None, None)

  lemma SeedTitleLowered(k: nat)
    ensures Lower(SeedRecord(k).title) == "article title " + NatToString(k)
  {
    var d := NatToString(k);
    var s := SeedRecord(k).title;
    var t := "article title " + d;
    assert forall i :: 0 <= i < 14 ==> LowerChar(s[i]) == t[i];
    assert forall i :: 14 <= i < |s| ==> s[i] == d[i - 14] == t[i];
  }

  /** The title-only filter "title 5" is containment of "title 5" in the lower-cased title. */
  lemma TitleFiveIsContainment(r: Record)
    ensures Matches(TitleFive, r) <==> Contains(Lower(r.title), "title 5")
  {
    var v := "title 5";
    assert Lower(v) == v by {
      assert forall i :: 0 <= i < |v| ==> LowerChar(v[i]) == v[i];
    }
    LikeIsContains(Lower(r.title), v);
  }

  /** The numbers of the seeded articles other than 5 print without the digit 5. */
  lemma SeedNumberLacksFive(k: nat)
    requires 1 <= k <= 10 && k != 5
    ensures forall i :: 0 <= i < |NatToString(k)| ==> NatToString(k)[i] != '5'
  {
    if k == 10 {
      assert NatToString(k) == [Digit(1), Digit(0)];
    } else {
      assert NatToString(k) == [Digit(k)];
    }
  }

  /** The title filter "title 5" accepts a record whose lower-cased title is "article title 5". */
  lemma TitleFiveAccepts(r: Record)
    requires Lower(r.title) == "article " + "title 5"
    ensures Matches(TitleFive, r)
  {
    TitleFiveIsContainment(r);
    ContainsSuffix("article ", "title 5");
  }

  /** The title filter "title 5" rejects every other seeded article, "Article Title 10" included. */
  lemma TitleFiveRejectsOthers(k: nat)
    requires 1 <= k <= 10 && k != 5
    ensures !Matches(TitleFive, SeedRecord(k))
  {
    var v := "title 5";
    var d := NatToString(k);
    var s := Lower(SeedRecord(k).title);
    TitleFiveIsContainment(SeedRecord(k));
    SeedTitleLowered(k);
    SeedNumberLacksFive(k);
    assert s == "article title " + d;
    assert forall i :: 0 <= i < 14 ==> s[i] != '5';
    assert forall i :: 14 <= i < |s| ==> s[i] == d[i - 14];
    ContainsNeedsLastChar(s, v);
  }

  /** Among the seeded articles, the title filter "title 5" accepts article 5 and no other. */
  lemma TitleFiveMatchesOnlyFive(k: nat)
    requires 1 <= k <= 10
    ensures Matches(TitleFive, SeedRecord(k)) <==> k == 5
  {
    if k == 5 {
      SeedTitleLowered(k);
      assert NatToString(k) == "5";
      assert "article title " + "5" == "article " + "title 5";
      TitleFiveAccepts(SeedRecord(k));
    } else {
      TitleFiveRejectsOthers(k);
    }
  }

  /** On the seeded articles, the title filter "title 5" selects exactly "Article Title 5". */
  lemma TitleFilterSelectsArticleFive()
    ensures Filter(SeedFixture(), r => Matches(TitleFive, r)) == [SeedRecord(5)]
  {
    var f := SeedFixture();
    var keep := r => Matches(TitleFive, r);
    forall i | 0 <= i < |f| ensures keep(f[i]) <==> i == 4 {
      TitleFiveMatchesOnlyFive(i + 1);
    }
    FilterKeepsOne(f, keep, 4);
  }

  /** With no filter, every record of the store is selected, in store order. */
  lemma NoFilterSelectsStore(store: seq<Record>)
    ensures Filter(store, r => Matches(NoCriteria, r)) == store
  {
    FilterKeepsAll(store, r => Matches(NoCriteria, r));
  }

  /** Ten matches in pages of ten: page 0 holds all of them and there is one page. */
  lemma TenFitOnePage(matched: seq<Record>)
    requires |matched| == 10
    ensures PageOf(matched, DefaultPageIndex, DefaultPageSize) == Page(matched, 0, 10, 10, 1)
  {
    assert matched[0..10] == matched;
  }

  /** On the seeded articles, no filter and the default page select all ten in a single page. */
  lemma NoFilterSelectsAll()
    ensures PageOf(Filter(SeedFixture(), r => Matches(NoCriteria, r)), DefaultPageIndex, DefaultPageSize)
         == Page(SeedFixture(), 0, 10, 10, 1)
  {
    var f := SeedFixture();
    NoFilterSelectsStore(f);
    TenFitOnePage(f);
  }
}

/**
  * Criteria-to-predicate translation for the article listing.
  *
  * A predicate is kept as the tree the JPA criteria builder assembles:
  * `conjunction()` is `Conjunction`, `and(p, c)` is `And(p, c)`, and each
  * condition is one of `lower(field) LIKE pattern`, `field = value`,
  * `field >= value` and `field <= value`.
  */
module Query {
  import opened Options
  import opened Text
  import opened Articles

  /** The five optional filter values of one listing request. */
  datatype Criteria = Criteria(
    title: Option<string>,
    author: Option<string>,
    slug: Option<string>,
    publishFrom: Option<string>,
    publishTo: Option<string>)

  const NoCriteria := Criteria(None, None, None, None, None)

  /** A filter value takes part only when it is non-null and non-empty. */
  predicate Present(v: Option<string>) {
    v.Some? && v.value != []
  }

  /** The record columns a condition can name. */
  datatype Field = TitleField | AuthorField | SlugField | PublishField

  function Column(r: Record, f: Field): string {
    match f
    case TitleField => r.title
    case AuthorField => r.author
    case SlugField => r.slug
    case PublishField => r.publish
  }

  datatype Condition =
    | LikeLower(field: Field, pattern: string)
    | Equal(field: Field, value: string)
    | GreaterOrEqual(field: Field, value: string)
    | LessOrEqual(field: Field, value: string)

  datatype Predicate = Conjunction | And(left: Predicate, right: Condition)

  /** What the database answers for one condition on one record. */
  predicate Holds(c: Condition, r: Record) {
    match c
    case LikeLower(f, pattern) => Like(Lower(Column(r, f)), pattern)
    case Equal(f, v) => Column(r, f) == v
    case GreaterOrEqual(f, v) => LexLe(v, Column(r, f))
    case LessOrEqual(f, v) => LexLe(Column(r, f), v)
  }

  /** What the database answers for an AND chain: `conjunction()` is true, `and` is conjunction. */
  predicate Eval(p: Predicate, r: Record) {
    match p
    case Conjunction => true
    case And(left, c) => Eval(left, r) && Holds(c, r)
  }

  /** The conditions of an AND chain, first added first. */
  function Conditions(p: Predicate): seq<Condition> {
    match p
    case Conjunction => []
    case And(left, c) => Conditions(left) + [c]
  }

  /** Every condition of the list holds of `r`. */
  predicate AllHold(cs: seq<Condition>, r: Record) {
    forall i :: 0 <= i < |cs| ==> Holds(cs[i], r)
  }

  /** An AND chain holds exactly when each of its conditions does; `conjunction()` is its identity. */
  lemma {:induction false} EvalIsAllHold(p: Predicate, r: Record)
    ensures Eval(p, r) <==> AllHold(Conditions(p), r)
  {
    match p
    case Conjunction =>
    case And(left, c) =>
      EvalIsAllHold(left, r);
      var cs := Conditions(left);
      assert Conditions(p) == cs + [c];
      assert forall i :: 0 <= i < |cs| ==> Conditions(p)[i] == cs[i];
      assert Conditions(p)[|cs|] == c;
  }

  /** A chain with no condition is `conjunction()` itself. */
  lemma NoConditionsIsConjunction(p: Predicate)
    requires Conditions(p) == []
    ensures p == Conjunction
  {
  }

  /** Two AND chains with the same conditions in the same order are the same predicate. */
  lemma {:induction false} ConditionsDeterminePredicate(p: Predicate, q: Predicate)
    requires Conditions(p) == Conditions(q)
    ensures p == q
  {
    match p
    case Conjunction =>
    case And(pl, pc) =>
      match q
      case Conjunction =>
      case And(ql, qc) =>
        var cp, cq := Conditions(pl), Conditions(ql);
        assert |cp| == |cq|;
        assert pc == Conditions(p)[|cp|] == Conditions(q)[|cq|] == qc;
        assert cp == Conditions(p)[..|cp|] == Conditions(q)[..|cq|] == cq;
        ConditionsDeterminePredicate(pl, ql);
  }

  /** The LIKE pattern both builders use for a text filter: the lower-cased value between two `%`. */
  function ContainsPattern(v: string): string {
    "%" + Lower(v) + "%"
  }

  /** A text filter holds when present: the lower-cased column is LIKE `"%" + lower(v) + "%"`. */
  predicate TextRule(v: Option<string>, column: string) {
    Present(v) ==> Like(Lower(column), ContainsPattern(v.value))
  }

  /** The slug filter holds when present: the column equals it exactly. */
  predicate ExactRule(v: Option<string>, column: string) {
    Present(v) ==> column == v.value
  }

  /** The lower bound holds when present: the column sorts at or after it. */
  predicate FromRule(v: Option<string>, column: string) {
    Present(v) ==> LexLe(v.value, column)
  }

  /** The upper bound holds when present: the column sorts at or before it. */
  predicate ToRule(v: Option<string>, column: string) {
    Present(v) ==> LexLe(column, v.value)
  }

  /**
    * The listing rule: a record matches when every present filter holds —
    * title and author by case-insensitive LIKE on `"%" + value + "%"`, slug by
    * exact equality, publish inclusively between the two bounds by string order.
    */
  predicate Matches(c: Criteria, r: Record) {
    && TextRule(c.title, r.title)
    && TextRule(c.author, r.author)
    && ExactRule(c.slug, r.slug)
    && FromRule(c.publishFrom, r.publish)
    && ToRule(c.publishTo, r.publish)
  }

  /** The number of filters that take part. */
  function PresentCount(c: Criteria): nat {
    (if Present(c.title) then 1 else 0) + (if Present(c.author) then 1 else 0)
    + (if Present(c.slug) then 1 else 0) + (if Present(c.publishFrom) then 1 else 0)
    + (if Present(c.publishTo) then 1 else 0)
  }

  /** `lower(f) LIKE "%" + lower(v) + "%"` when `v` is present, nothing otherwise. */
  function TextCondition(f: Field, v: Option<string>): seq<Condition> {
    if Present(v) then [LikeLower(f, ContainsPattern(v.value))] else []
  }

  function EqualCondition(f: Field, v: Option<string>): seq<Condition> {
    if Present(v) then [Equal(f, v.value)] else []
  }

  function LowerBoundCondition(f: Field, v: Option<string>): seq<Condition> {
    if Present(v) then [GreaterOrEqual(f, v.value)] else []
  }

  function UpperBoundCondition(f: Field, v: Option<string>): seq<Condition> {
    if Present(v) then [LessOrEqual(f, v.value)] else []
  }

  /**
    * The conditions a builder ANDs onto `conjunction()`, in the order the
    * source adds them: one per present filter and none for an absent one.
    */
  function Translate(c: Criteria): (cs: seq<Condition>)
    ensures |cs| == PresentCount(c)
    ensures forall r :: AllHold(cs, r) <==> Matches(c, r)
  {
    var cs := TextCondition(TitleField, c.title) + TextCondition(AuthorField, c.author)
      + EqualCondition(SlugField, c.slug) + LowerBoundCondition(PublishField, c.publishFrom)
      + UpperBoundCondition(PublishField, c.publishTo);
    assert forall r :: AllHold(cs, r) <==> Matches(c, r) by {
      forall r ensures AllHold(cs, r) <==> Matches(c, r) {
        TranslateHolds(c, r);
      }
    }
    cs
  }

  lemma TranslateHolds(c: Criteria, r: Record)
    ensures
      AllHold(TextCondition(TitleField, c.title) + TextCondition(AuthorField, c.author)
      + EqualCondition(SlugField, c.slug) + LowerBoundCondition(PublishField, c.publishFrom)
      + UpperBoundCondition(PublishField, c.publishTo), r)
      <==> Matches(c, r)
  {
    var t := TextCondition(TitleField, c.title);
    var a := TextCondition(AuthorField, c.author);
    var s := EqualCondition(SlugField, c.slug);
    var f := LowerBoundCondition(PublishField, c.publishFrom);
    var u := UpperBoundCondition(PublishField, c.publishTo);
    assert AllHold(t, r) <==> TextRule(c.title, r.title) by { AllHoldAtMostOne(t, r); }
    assert AllHold(a, r) <==> TextRule(c.author, r.author) by { AllHoldAtMostOne(a, r); }
    assert AllHold(s, r) <==> ExactRule(c.slug, r.slug) by { AllHoldAtMostOne(s, r); }
    assert AllHold(f, r) <==> FromRule(c.publishFrom, r.publish) by { AllHoldAtMostOne(f, r); }
    assert AllHold(u, r) <==> ToRule(c.publishTo, r.publish) by { AllHoldAtMostOne(u, r); }
    AllHoldAppend(t, a, r);
    AllHoldAppend(t + a, s, r);
    AllHoldAppend(t + a + s, f, r);
    AllHoldAppend(t + a + s + f, u, r);
  }

  lemma AllHoldAtMostOne(cs: seq<Condition>, r: Record)
    requires |cs| <= 1
    ensures AllHold(cs, r) <==> cs == [] || Holds(cs[0], r)
  {
  }

  lemma AllHoldAppend(a: seq<Condition>, b: seq<Condition>, r: Record)
    ensures AllHold(a + b, r) <==> AllHold(a, r) && AllHold(b, r)
  {
    if AllHold(a, r) && AllHold(b, r) {
      forall i | 0 <= i < |a + b| ensures Holds((a + b)[i], r) {
        if i >= |a| {
          assert (a + b)[i] == b[i - |a|];
        }
      }
    }
    if AllHold(a + b, r) {
      forall i | 0 <= i < |a| ensures Holds(a[i], r) {
        assert (a + b)[i] == a[i];
      }
      forall i | 0 <= i < |b| ensures Holds(b[i], r) {
        assert (a + b)[|a| + i] == b[i];
      }
    }
  }

  /** With every filter null or empty no condition is added, and every record matches. */
  lemma AbsentFiltersMatchAll(c: Criteria, r: Record)
    requires PresentCount(c) == 0
    ensures Translate(c) == []
    ensures Matches(c, r)
  {
  }

  /** An empty filter value adds exactly what a null one adds: nothing. */
  lemma EmptyIsAbsent(c: Criteria)
    ensures Translate(c.(title := Some(""))) == Translate(c.(title := None))
    ensures Translate(c.(author := Some(""))) == Translate(c.(author := None))
    ensures Translate(c.(slug := Some(""))) == Translate(c.(slug := None))
    ensures Translate(c.(publishFrom := Some(""))) == Translate(c.(publishFrom := None))
    ensures Translate(c.(publishTo := Some(""))) == Translate(c.(publishTo := None))
  {
  }

  /**
    * The listing rule as plain substring containment: case-insensitive
    * containment for title and author, exact slug, inclusive publish range.
    */
  predicate SubstringMatches(c: Criteria, r: Record) {
    && (Present(c.title) ==> Contains(Lower(r.title), Lower(c.title.value)))
    && (Present(c.author) ==> Contains(Lower(r.author), Lower(c.author.value)))
    && ExactRule(c.slug, r.slug)
    && FromRule(c.publishFrom, r.publish)
    && ToRule(c.publishTo, r.publish)
  }

  /** The text filter values are free of LIKE wildcards. */
  predicate WildcardFree(c: Criteria) {
    && (c.title.Some? ==> NoWildcards(c.title.value))
    && (c.author.Some? ==> NoWildcards(c.author.value))
  }

  /** For filter values without `%` or `_`, the LIKE rule is case-insensitive substring containment. */
  lemma MatchesIsSubstringMatch(c: Criteria, r: Record)
    requires WildcardFree(c)
    ensures Matches(c, r) <==> SubstringMatches(c, r)
  {
    if c.title.Some? {
      LowerKeepsWildcards(c.title.value);
      LikeIsContains(Lower(r.title), Lower(c.title.value));
    }
    if c.author.Some? {
      LowerKeepsWildcards(c.author.value);
      LikeIsContains(Lower(r.author), Lower(c.author.value));
    }
  }

  /** Whatever the filter values hold, a substring match is also a LIKE match. */
  lemma SubstringMatchIsMatch(c: Criteria, r: Record)
    requires SubstringMatches(c, r)
    ensures Matches(c, r)
  {
    if Present(c.title) {
      ContainsSatisfiesLike(Lower(r.title), Lower(c.title.value));
    }
    if Present(c.author) {
      ContainsSatisfiesLike(Lower(r.author), Lower(c.author.value));
    }
  }

  /** A title filter of `_` or `%` is not escaped: it is a wildcard and matches titles that do not contain it. */
  lemma WildcardTitleFilters(r: Record)
    requires r.title == "ab"
    ensures Matches(Criteria(Some("_"), None, None, None, None), r)
    ensures !SubstringMatches(Criteria(Some("_"), None, None, None, None), r)
    ensures Matches(Criteria(Some("%"), None, None, None, None), r)
  {
    assert Lower("ab") == "ab" by {
      assert forall i :: 0 <= i < 2 ==> LowerChar("ab"[i]) == "ab"[i];
    }
    assert Lower("_") == "_" && Lower("%") == "%";
    UnderscoreIsAWildcard();
    PercentMatchesEverything("ab");
  }

  /** Only the slug filter present. */
  function SlugOnly(v: string): Criteria {
    Criteria(None, None, Some(v), None, None)
  }

  /** The slug filter is exact and case-sensitive. */
  lemma SlugIsExact(r: Record)
    requires r.slug == "article-title-1"
    ensures Matches(SlugOnly("article-title-1"), r)
    ensures !Matches(SlugOnly("Article-Title-1"), r)
    ensures !Matches(SlugOnly("article-title-1x"), r)
  {
  }

  /** The publish range is inclusive: a record whose publish value equals both bounds matches. */
  lemma {:induction false} RangeIsInclusive(c: Criteria, r: Record)
    requires c == Criteria(None, None, None, Some(r.publish), Some(r.publish))
    ensures Matches(c, r)
  {
    LexLeReflexive(r.publish);
  }

  /** The seeded publish value lies within the range it bounds on both sides. */
  lemma SeedPublishRange(r: Record)
    requires r.publish == "2010-01-01T12:00:00+01:00"
    ensures Matches(Criteria(None, None, None, Some("2010-01-01T12:00:00+01:00"), Some("2010-01-01T12:00:00+01:00")), r)
  {
    RangeIsInclusive(Criteria(None, None, None, Some(r.publish), Some(r.publish)), r);
  }

  /**
    * Publish bounds compare as strings, not as dates: "2020-1-1" sorts after
    * "2020-01-31", so a lower bound of "2020-01-31" admits it.
    */
  lemma PublishComparesAsStrings(r: Record)
    requires r.publish == "2020-1-1"
    ensures Matches(Criteria(None, None, None, Some("2020-01-31"), None), r)
  {
    assert "2020-01-31"[5] == '0' && "2020-1-1"[5] == '1';
    assert "2020-01-31"[..5] == "2020-1-1"[..5];
    LexLeCommonPrefix("2020-01-31", "2020-1-1", 5);
  }

  /** The content column is never filtered. */
  lemma MatchesIgnoresContent(c: Criteria, r: Record, content: string)
    ensures Matches(c, r.(content := content)) == Matches(c, r)
  {
  }
}

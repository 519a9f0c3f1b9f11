# Article listing filters: criteria-to-predicate translation

This project models the filtering core of a paginated article listing. The
endpoint takes five optional filter strings: `title`, `author`, `slug`,
`publishFrom` and `publishTo`. It turns each one that is non-null and non-empty
into one query condition and ANDs these onto `conjunction()`:

- `title` and `author`: `lower(column) LIKE "%" + lower(value) + "%"`;
- `slug`: exact equality;
- `publishFrom` and `publishTo`: `publish >= value` and `publish <= value`, compared as strings.

The endpoint builds this predicate twice. The first copy is an inline lambda
over the request parameters. The second is an `ArticleSpecification` object
that holds an `ArticleCriteria` bean filled from the same parameters. Both
copies are queried with the same page request.

What the model contains:

- `Text`: the string semantics the conditions rely on. These are ASCII
  lower-casing, SQL `LIKE` with the `%` and `_` wildcards and no escape
  character, substring containment, and lexicographic string order.
- `Articles`: the stored `Record` and the mutable `Article` entity with its setters.
- `Query`: the `Criteria` value, and the predicate as the tree the criteria
  builder assembles (`Conjunction`, `And(predicate, condition)`). It defines
  what the database answers for that tree (`Eval`) and the listing rule
  `Matches`. `Translate` is the list of conditions a builder must produce.
- `Domain`: the `ArticleCriteria` bean and the `ArticleSpecification` class with `ToPredicate`.
- `Paging`: the contract assumed of `findAll(specification, PageRequest.of(next, max))`.
- `Application`: the inline builder (`LambdaToPredicate`), the request
  (`GetAll`) and the start-up seeding, which is used as a fixture.

The main result is `Application.GetAll`. For every store, every valid page
request and every parameter value, the lambda page and the class page are
equal. Both are the requested page of the records that satisfy `Matches`. The
proof goes through two steps. First, both builders produce exactly
`Translate(criteria)`. Second, two AND chains with the same conditions are the
same predicate (`Query.ConditionsDeterminePredicate`).

Read as a filter, `title` and `author` mean case-insensitive substring
containment. The code uses `LIKE` on the raw lower-cased value and does not
escape `%` or `_`, and the model follows the code.
`Query.MatchesIsSubstringMatch` shows that the two rules agree when the value
has no wildcard. `Query.SubstringMatchIsMatch` shows that a substring match is
always a `LIKE` match. `Query.WildcardTitleFilters` shows that `_` and `%` in a
filter value are wildcards and widen the match.

The listing application imports `Article` and `ArticleSpecification` from
`com.github.senocak.clinked.domain`. The entity files declare the package
`com.github.senocak.domain`. The model treats them as one set of types.

## Model

| member | source | states |
|---|---|---|
| `Application.LambdaToPredicate` | src/main/java/com/github/senocak/clinked/ArticleApplication.java:66-90 | builds exactly one condition per non-null, non-empty parameter, in source order; the resulting predicate holds of a record iff `Matches` does |
| `Application.GetAll` | src/main/java/com/github/senocak/clinked/ArticleApplication.java:57-105 | for any page request within the declared bounds, the lambda page equals the class page; both are the requested page of the store's records that satisfy `Matches` |
| `Application.ApplicationReadyEvent` | src/main/java/com/github/senocak/clinked/ArticleApplication.java:43-54 | given ten distinct ids, the loop appends the ten seeded articles "Article Title 1".."Article Title 10" to the store in order; each one it saves is persistable, since `ToRecord` demands it |
| `Application.SeedFixture` | src/main/java/com/github/senocak/clinked/ArticleApplication.java:44-53 | the seed holds ten records |
| `Application.SeedTitleLowered` | src/main/java/com/github/senocak/clinked/ArticleApplication.java:47 | the lower-cased seeded title `i` is "article title " followed by the digits of `i` |
| `Application.TitleFiveIsContainment` | src/main/java/com/github/senocak/clinked/ArticleApplication.java:69-72 | the title filter "title 5" matches iff the lower-cased title contains "title 5" |
| `Application.SeedNumberLacksFive` | src/main/java/com/github/senocak/clinked/ArticleApplication.java:44-47 | the numbers 1..10 other than 5 print without the digit 5 |
| `Application.TitleFiveAccepts` | src/main/java/com/github/senocak/clinked/ArticleApplication.java:69-72 | a record whose lower-cased title is "article title 5" passes the filter "title 5" |
| `Application.TitleFiveRejectsOthers` | src/main/java/com/github/senocak/clinked/ArticleApplication.java:69-72 | every other seeded article, "Article Title 10" included, fails the filter "title 5" |
| `Application.TitleFiveMatchesOnlyFive` | src/main/java/com/github/senocak/clinked/ArticleApplication.java:69-72 | among the seeded articles, the filter "title 5" accepts article `k` iff `k` = 5 |
| `Application.TitleFilterSelectsArticleFive` | src/main/java/com/github/senocak/clinked/ArticleApplication.java:44-53 | on the seed, the filter "title 5" selects exactly "Article Title 5" |
| `Application.NoFilterSelectsStore` | src/main/java/com/github/senocak/clinked/ArticleApplication.java:66-67 | with no filter every record of the store is selected, in store order |
| `Application.TenFitOnePage` | src/main/java/com/github/senocak/clinked/ArticleApplication.java:58-59 | ten matches on the default page (index 0, size 10) give all ten and one page |
| `Application.NoFilterSelectsAll` | src/main/java/com/github/senocak/clinked/ArticleApplication.java:58-67 | on the seed, no filter and the default page give all ten articles and one page |
| `Domain.ArticleSpecification.ToPredicate` | src/main/java/com/github/senocak/domain/ArticleSpecification.java:17-41 | reads only the held criteria and changes nothing; builds exactly `Translate` of the held criteria; the predicate holds iff `Matches` does; for a non-null criteria reference, no criteria value fails |
| `Domain.ArticleSpecification.constructor` | src/main/java/com/github/senocak/domain/ArticleSpecification.java:10-14 | holds the given criteria object (a reference, not a copy) |
| `Domain.ArticleCriteria.constructor` | src/main/java/com/github/senocak/clinked/domain/ArticleCriteria.java:3-8 | a new criteria object has all five fields null |
| `Domain.ArticleCriteria.GetTitle` | src/main/java/com/github/senocak/clinked/domain/ArticleCriteria.java:10-12 | a definition without a contract: returns the stored title, null included |
| `Domain.ArticleCriteria.GetAuthor` | src/main/java/com/github/senocak/clinked/domain/ArticleCriteria.java:18-20 | a definition without a contract: returns the stored author, null included |
| `Domain.ArticleCriteria.GetSlug` | src/main/java/com/github/senocak/clinked/domain/ArticleCriteria.java:26-28 | a definition without a contract: returns the stored slug, null included |
| `Domain.ArticleCriteria.GetPublishFrom` | src/main/java/com/github/senocak/clinked/domain/ArticleCriteria.java:34-36 | a definition without a contract: returns the stored lower publish bound, null included |
| `Domain.ArticleCriteria.GetPublishTo` | src/main/java/com/github/senocak/clinked/domain/ArticleCriteria.java:42-44 | a definition without a contract: returns the stored upper publish bound, null included |
| `Domain.ArticleCriteria.SetTitle` | src/main/java/com/github/senocak/clinked/domain/ArticleCriteria.java:10-16 | stores the value unchecked; the getter returns it; the other four fields are unchanged |
| `Domain.ArticleCriteria.SetAuthor` | src/main/java/com/github/senocak/clinked/domain/ArticleCriteria.java:18-24 | stores the value unchecked; the getter returns it; the other four fields are unchanged |
| `Domain.ArticleCriteria.SetSlug` | src/main/java/com/github/senocak/clinked/domain/ArticleCriteria.java:26-32 | stores the value unchecked; the getter returns it; the other four fields are unchanged |
| `Domain.ArticleCriteria.SetPublishFrom` | src/main/java/com/github/senocak/clinked/domain/ArticleCriteria.java:34-40 | stores the value unchecked; the getter returns it; the other four fields are unchanged |
| `Domain.ArticleCriteria.SetPublishTo` | src/main/java/com/github/senocak/clinked/domain/ArticleCriteria.java:42-48 | stores the value unchecked; the getter returns it; the other four fields are unchanged |
| `Articles.Article.constructor` | src/main/java/com/github/senocak/domain/Article.java:18-42 | a new article has every field null |
| `Articles.Article.ToRecord` | src/main/java/com/github/senocak/domain/Article.java:27-42 | a persistable article (no null column, title of at most 100 characters) is stored with exactly its field values |
| `Articles.Article.SetId` | src/main/java/com/github/senocak/domain/Article.java:86-88 | changes the id only |
| `Articles.Article.SetTitle` | src/main/java/com/github/senocak/domain/Article.java:90-92 | the title becomes the given value; no other field changes |
| `Articles.Article.SetSlug` | src/main/java/com/github/senocak/domain/Article.java:94-96 | the slug becomes the given value; no other field changes |
| `Articles.Article.SetContent` | src/main/java/com/github/senocak/domain/Article.java:98-100 | the content becomes the given value; no other field changes |
| `Articles.Article.SetAuthor` | src/main/java/com/github/senocak/domain/Article.java:102-104 | the author becomes the given value; no other field changes |
| `Articles.Article.SetPublish` | src/main/java/com/github/senocak/domain/Article.java:106-108 | the publish string is stored as given, uninterpreted; no other field changes |
| `Query.Holds` | src/main/java/com/github/senocak/clinked/ArticleApplication.java:69-88 | a definition without a contract: what the database answers for `like(lower(column), pattern)` (via `Text.Like`), `equal`, `greaterThanOrEqualTo` and `lessThanOrEqualTo` (via `Text.LexLe`) on one record |
| `Query.Eval` | src/main/java/com/github/senocak/clinked/ArticleApplication.java:67-89 | a definition without a contract: `conjunction()` is true and `and` is conjunction, so true is the identity of the chain |
| `Query.Translate` | src/main/java/com/github/senocak/domain/ArticleSpecification.java:18-40 | one condition per present filter and none per absent one; all conditions hold iff `Matches` does |
| `Query.TranslateHolds` | src/main/java/com/github/senocak/domain/ArticleSpecification.java:20-39 | the conditions of all five fields hold together iff each field's rule holds |
| `Query.AllHoldAppend` | src/main/java/com/github/senocak/domain/ArticleSpecification.java:18-39 | the conditions ANDed in two groups hold iff both groups hold |
| `Query.EvalIsAllHold` | src/main/java/com/github/senocak/domain/ArticleSpecification.java:18-39 | an AND chain started from `conjunction()` holds iff each of its conditions holds; `conjunction()` is the always-true identity |
| `Query.NoConditionsIsConjunction` | src/main/java/com/github/senocak/domain/ArticleSpecification.java:18-40 | a chain with no condition added is `conjunction()` itself |
| `Query.ConditionsDeterminePredicate` | src/main/java/com/github/senocak/clinked/ArticleApplication.java:91-100 | two predicates with the same conditions in the same order are identical, so the lambda and the class give the same query |
| `Query.AbsentFiltersMatchAll` | src/main/java/com/github/senocak/clinked/ArticleApplication.java:66-89 | with all five filters null or empty, no condition is added and every record matches |
| `Query.EmptyIsAbsent` | src/main/java/com/github/senocak/clinked/ArticleApplication.java:69-88 | for each field, an empty string adds the same conditions as null: none |
| `Query.MatchesIsSubstringMatch` | src/main/java/com/github/senocak/clinked/ArticleApplication.java:69-76 | for title and author values without `%` or `_`, the LIKE rule is case-insensitive substring containment |
| `Query.SubstringMatchIsMatch` | src/main/java/com/github/senocak/domain/ArticleSpecification.java:20-27 | for any filter values, a case-insensitive substring match passes the LIKE conditions |
| `Query.WildcardTitleFilters` | src/main/java/com/github/senocak/domain/ArticleSpecification.java:20-23 | an unescaped `_` or `%` title filter matches "ab", though "ab" does not contain `_` |
| `Query.SlugIsExact` | src/main/java/com/github/senocak/clinked/ArticleApplication.java:77-80 | slug "article-title-1" matches the filter "article-title-1" and fails "Article-Title-1" and "article-title-1x" |
| `Query.RangeIsInclusive` | src/main/java/com/github/senocak/clinked/ArticleApplication.java:81-88 | a record whose publish value equals both bounds matches |
| `Query.SeedPublishRange` | src/main/java/com/github/senocak/domain/ArticleSpecification.java:32-39 | a record published "2010-01-01T12:00:00+01:00" matches that value as both bounds |
| `Query.PublishComparesAsStrings` | src/main/java/com/github/senocak/domain/Article.java:41-42 | publish is a string and bounds compare as strings: "2020-1-1" passes the lower bound "2020-01-31" |
| `Query.MatchesIgnoresContent` | src/main/java/com/github/senocak/domain/Article.java:34-36 | the content column never affects whether a record matches |
| `Text.Like` | src/main/java/com/github/senocak/domain/ArticleSpecification.java:21-26 | a definition without a contract: SQL `like` with no escape character; `%` matches any run, also the empty one; `_` matches one character; every other character matches itself |
| `Text.LexLe` | src/main/java/com/github/senocak/domain/ArticleSpecification.java:32-38 | a definition without a contract: `<=` on strings as lexicographic order on character codes, with a proper prefix sorting first |
| `Text.Lower` | src/main/java/com/github/senocak/clinked/ArticleApplication.java:71 | lower-casing keeps the length and lowers each ASCII letter in place |
| `Text.LowerKeepsWildcards` | src/main/java/com/github/senocak/clinked/ArticleApplication.java:75 | lower-casing a filter value neither adds nor removes `%` or `_` |
| `Text.LowerIdempotent` | src/main/java/com/github/senocak/clinked/ArticleApplication.java:71 | lower-casing an already lower-cased string changes nothing |
| `Text.ContainsIsSubstring` | src/main/java/com/github/senocak/domain/ArticleSpecification.java:22 | `Contains` holds iff some block of the string equals the value |
| `Text.LikeIsContains` | src/main/java/com/github/senocak/clinked/ArticleApplication.java:70-71 | `s LIKE "%" + v + "%"` iff `s` contains `v`, when `v` has no wildcard |
| `Text.LikeLiteralPrefix` | src/main/java/com/github/senocak/domain/ArticleSpecification.java:26 | a wildcard-free pattern prefix must equal the string's prefix, and the rest of the pattern must match the rest of the string |
| `Text.ContainsSatisfiesLike` | src/main/java/com/github/senocak/domain/ArticleSpecification.java:22 | containment always satisfies the `"%" + v + "%"` pattern, wildcards or not |
| `Text.UnderscoreIsAWildcard` | src/main/java/com/github/senocak/clinked/ArticleApplication.java:71 | "ab" is LIKE `%_%` while not containing `_` |
| `Text.PercentMatchesEverything` | src/main/java/com/github/senocak/clinked/ArticleApplication.java:75 | the pattern `%%%` matches every string |
| `Text.LexLeReflexive` | src/main/java/com/github/senocak/clinked/ArticleApplication.java:83 | every string is `>=` and `<=` itself |
| `Text.LexLeTotal` | src/main/java/com/github/senocak/clinked/ArticleApplication.java:87 | any two strings are ordered one way or the other |
| `Text.LexLeAntisymmetric` | src/main/java/com/github/senocak/domain/ArticleSpecification.java:34 | strings ordered both ways are equal |
| `Text.LexLeTransitive` | src/main/java/com/github/senocak/domain/ArticleSpecification.java:38 | the string order is transitive |
| `Text.LowerAppend` | src/main/java/com/github/senocak/clinked/ArticleApplication.java:71 | lower-casing distributes over concatenation, so `"%" + v + "%"` keeps its `%` signs |
| `Text.LowerHasNoUpperCase` | src/main/java/com/github/senocak/domain/ArticleSpecification.java:22 | no upper-case ASCII letter remains after lower-casing |
| `Text.ContainsSuffix` | src/main/java/com/github/senocak/clinked/ArticleApplication.java:71 | a string contains every suffix of itself |
| `Text.ContainsNeedsLastChar` | src/main/java/com/github/senocak/clinked/ArticleApplication.java:71 | a string contains a non-empty value only if it holds the value's last character somewhere |
| `Text.LikePercent` | src/main/java/com/github/senocak/clinked/ArticleApplication.java:71 | the pattern `%` matches every string |
| `Text.LikeAcceptsLiteralPrefix` | src/main/java/com/github/senocak/domain/ArticleSpecification.java:22 | a string that starts with a pattern prefix and whose rest matches the rest of the pattern matches the whole pattern |
| `Text.LexLeCommonPrefix` | src/main/java/com/github/senocak/clinked/ArticleApplication.java:83 | after a common prefix, the first differing characters decide the order |
| `Text.NatToString` | src/main/java/com/github/senocak/clinked/ArticleApplication.java:47 | decimal digits of an int: one digit below 10, at most two below 100 |
| `Paging.Filter` | src/main/java/com/github/senocak/clinked/ArticleApplication.java:92 | the selected records are exactly the store's records the predicate accepts |
| `Paging.FilterExtensional` | src/main/java/com/github/senocak/clinked/ArticleApplication.java:100 | two predicates that accept the same records select the same records in the same order |
| `Paging.FilterKeepsAll` | src/main/java/com/github/senocak/clinked/ArticleApplication.java:92 | a predicate that accepts every record selects the whole store |
| `Paging.FilterKeepsNone` | src/main/java/com/github/senocak/clinked/ArticleApplication.java:92 | a predicate that accepts no record of the store selects nothing |
| `Paging.FilterAppend` | src/main/java/com/github/senocak/clinked/ArticleApplication.java:92 | filtering a concatenation filters each part and concatenates the results in order |
| `Paging.FilterKeepsOne` | src/main/java/com/github/senocak/clinked/ArticleApplication.java:92 | a predicate that accepts exactly one position selects that record alone |
| `Paging.PageCount` | src/main/java/com/github/senocak/clinked/ArticleApplication.java:91 | the page count is the ceiling of matches divided by page size |
| `Paging.PageOf` | src/main/java/com/github/senocak/clinked/ArticleApplication.java:91-92 | page `n` holds at most `size` records, taken in order from position `n * size`; the page reports the total count and page count |
| `Paging.PastLastPageIsEmpty` | src/main/java/com/github/senocak/clinked/ArticleApplication.java:58 | a page index at or past the page count gives an empty page, not an error |
| `Paging.PagesBeforeLastAreFull` | src/main/java/com/github/senocak/clinked/ArticleApplication.java:59 | every page before the last holds exactly `size` records |
| `Paging.PagesCoverMatches` | src/main/java/com/github/senocak/clinked/ArticleApplication.java:91-92 | match `i` is entry `i % size` of page `i / size`, so the pages cover all matches in order |
| `Paging.FindAll` | src/main/java/com/github/senocak/clinked/ArticleApplication.java:91-92 | for a page request within 0..99 and 1..99, every returned record is in the store and satisfies the predicate; at most `size` are returned; the total is the number of matches |
| `Paging.TwentyFiveInPagesOfTen` | src/main/java/com/github/senocak/clinked/ArticleApplication.java:58-59 | 25 matches in pages of 10: page 2 holds 5 records, there are 3 pages, page 3 is empty |

## Left out

- Spring Boot start-up, `main`, the REST controller and its routing are not modelled.
- Request-parameter binding and the `@Min`/`@Max` checks are not modelled. Their bounds appear only as the precondition `ValidPageRequest`.
- `ArticleRepository.findAll`, `PageRequest.of` and JPA query execution belong to a library and a database that are not part of this model. `Paging` states the page contract they are assumed to meet; nothing proves that Spring meets it.
- The store's iteration order is taken as given: a `seq<Record>`. No sort order is imposed.
- The `Map.of` response and the page serialisation mode are not modelled; `GetAll` returns both pages directly.
- `UUID.randomUUID()` is replaced by a parameter (`ids`), required to hold ten distinct values as random UUIDs are taken to be. `articleRepository.save` is modelled as appending the stored record to a sequence. Its merge behaviour is not modelled: saving an entity whose id is already stored updates that row instead of adding one.
- Hibernate id generation and the `createdAt`/`updatedAt` timestamps are not modelled.
- `Article`'s getters are plain field reads, so the model reads the fields directly.
- The `@Size(max = 100)` and non-null column constraints are checked when an article is saved, not in its setters. The model states them only as `Persistable`, which `ToRecord` requires.
- `toLowerCase` and SQL `lower` depend on the locale and on the database. The model replaces both with the same fixed ASCII lower-casing.
- Database collation is replaced by lexicographic order on character codes.
- The LIKE escape character is not modelled: `%` and `_` are always wildcards.
- SQL three-valued logic for null columns is not modelled. Stored records have non-null columns.
- Concurrency is not modelled. All requests and the start-up seeding share one repository and one database. Seeding can overlap a request, and other writes can fall between the two `findAll` calls of one request.
- `Application.GetAll`: both queries are assumed to see the same rows in the same order. The two `findAll` calls are separate repository calls with no enclosing transaction, and `PageRequest.of(next, max)` sets no sort order, so nothing in the source guarantees this. The model passes one `store` to both calls. The equality of the two pages rests on that assumption as well as on `Query.ConditionsDeterminePredicate`.
- `Domain.ArticleSpecification.ToPredicate`: the criteria reference is non-null in the model. Java accepts `new ArticleSpecification(null)`, and `toPredicate` then throws a `NullPointerException` on its first getter call. The only caller passes a fresh object.
- `Paging.FindAll`: its contract does not name the exact page. `Application.GetAll` states the exact page, through `Paging.PageOf`.

# Dynamic member search with paging: a Dafny model

This project models the member search of a Querydsl teaching repository.
A search condition carries four optional fields: username, team name, and
lower and upper age bounds. Each present field becomes one comparison, the
comparisons are AND-ed, and the query runs over members left-joined to
their team. Each selected member comes back as a `MemberTeamDto` (member
id, username, age, team id, team name). There are three entry points:

- `search` returns every match.
- `searchPageSimple` returns one page and always runs the count.
- `searchPageComplex` returns one page and runs the count query only when
  the page does not already fix the total.

The database is an in-memory sequence of member rows in store order. Each
row carries the team row its foreign key points to, if any. The Querydsl
and JPA calls are modelled by what they mean relationally:

- a left outer join;
- SQL comparisons in which a NULL column never matches;
- `offset` and `limit` as a window over the result;
- `fetchCount` as the number of selected rows.

The Spring Data library code the repository relies on is written out as
explicit assumptions in module `Paging`:

- `Pageable.getOffset` is page × size.
- The `PageImpl` constructor corrects the total: when the content is
  non-empty and the page reaches past the given total, the total becomes
  offset + content size.
- `PageableExecutionUtils.getPage` skips the count in two cases. On the
  first page, content shorter than the page size is the total. On a later
  page, non-empty content shorter than the page size gives offset + content
  size.

`StringUtils.hasText` and `Character.isWhitespace` are stated in module
`MemberSearch`.

The entities `Member` and `Team` are Dafny classes whose fields can be
assigned, as Lombok's setters allow. Their constructors leave the id
absent, because only the store generates ids. `Member.toString` is a
function on the object. It is paired with a reader that gets the id, the
username text and the age back from the text.

Files:

- `wrappers.dfy`: `Option`.
- `entity.dfy`: the `Team` and `Member` classes and the `toString` rendering.
- `paging.dfy`: `Pageable`, `Page`, the offset/limit window, and the
  assumed `PageImpl` and `getPage` behaviour.
- `member_search.dfy`: the condition, the predicate composer, the join,
  the search and count queries, and both paging policies.
- `search_properties.dfy`: the lemmas about the search and the paging policies.
- `seed_data.dfy`: the fixture of the repository's tests and worked examples.

`searchPageComplex` skips its count query on a short first page, and also
on a later page that is non-empty and shorter than the page size, which is
what `getPage` does.

The search queries have no `orderBy`, so results come in store order, the
order of the row sequence. The paging example that sorts by username
descending is modelled by handing the rows to the search in that order.

## Model

| member | source | states |
|---|---|---|
| `Entity.Team.constructor` | src/main/java/com/example/querydsl/entity/Team.java:23-33 | a new team has the given name, no id and no members |
| `Entity.Member.OfUsername` | src/main/java/com/example/querydsl/entity/Member.java:44-46 | `Member(username)` gives age 0, no team and no id; the username may be null |
| `Entity.Member.constructor` | src/main/java/com/example/querydsl/entity/Member.java:48-51 | `Member(username, age)` stores both and leaves team and id absent |
| `Entity.Member.WithTeam` | src/main/java/com/example/querydsl/entity/Member.java:53-57 | `Member(username, age, team)` stores all three and leaves the id absent |
| `Entity.NullableNumberRoundTrip` | src/main/java/com/example/querydsl/entity/Member.java:34-36 | the decimal text of a nullable `Long`/`Integer` (or "null") reads back as the same value |
| `Entity.Member.ToString` | src/main/java/com/example/querydsl/entity/Member.java:31-38 | no own contract; what it renders is stated by `ToStringKeepsColumns`, `ToStringShowsOnlyColumns` and `NullUsernameRendering` |
| `Entity.UsernameFieldOfText` | src/main/java/com/example/querydsl/entity/Member.java:31-38 | the text between the quotes after the id field and before the age field is the username, "null" for a null username |
| `Entity.ToStringKeepsColumns` | src/main/java/com/example/querydsl/entity/Member.java:31-38 | the id, the username text and the age can be read back from `toString`'s text: the id after 'id=' up to the first comma, the username between the quotes, the age after the last '=' before the closing brace |
| `Entity.ToStringShowsOnlyColumns` | src/main/java/com/example/querydsl/entity/Member.java:31-38 | the rendering depends only on id, username text and age: the team is omitted, and a null username renders like "null" |
| `Entity.NullUsernameRendering` | src/main/java/com/example/querydsl/entity/Member.java:31-38 | a member with a null username renders as `Member{id=1, username='null', age=100}` |
| `Paging.Window` | src/main/java/com/example/querydsl/entity/MemberRepositoryImpl.java:113-114 | offset/limit keeps at most `limit` rows, and row i of the window is row offset+i of the input |
| `Paging.PageImplTotal` | src/main/java/com/example/querydsl/entity/MemberRepositoryImpl.java:72 | no own contract (an assumption about `PageImpl`); its effect on search totals is stated by `PageImplKeepsExactTotal` |
| `Paging.NewPage` | src/main/java/com/example/querydsl/entity/MemberRepositoryImpl.java:72 | `new PageImpl<>(content, pageable, total)` keeps the content and the page request as given |
| `Paging.CountQueryRuns` | src/main/java/com/example/querydsl/entity/MemberRepositoryImpl.java:91 | no own contract (an assumption about `getPage`); `GetPageIgnoresSkippedCount` states that a skipped count cannot change the page |
| `Paging.GetPage` | src/main/java/com/example/querydsl/entity/MemberRepositoryImpl.java:91 | `getPage` keeps the content and the page request as given; its total is stated by `GetPageTotalIsExact` |
| `Paging.PageImplKeepsExactTotal` | src/main/java/com/example/querydsl/entity/MemberRepositoryImpl.java:72 | PageImpl's total correction leaves a total unchanged when the content is the page's window of that many rows |
| `Paging.GetPageIgnoresSkippedCount` | src/main/java/com/example/querydsl/entity/MemberRepositoryImpl.java:91 | when getPage does not ask for the count, the page is the same whatever the count would have been |
| `Paging.GetPageTotalIsExact` | src/main/java/com/example/querydsl/entity/MemberRepositoryImpl.java:91 | for content cut from N rows by the page's offset and size, getPage reports N, counted or derived |
| `MemberSearch.IsWhitespace` | src/main/java/com/example/querydsl/entity/MemberRepositoryImpl.java:120 | no own contract (an assumption about `Character.isWhitespace`); used by `HasText` |
| `MemberSearch.HasText` | src/main/java/com/example/querydsl/entity/MemberRepositoryImpl.java:120-124 | no own contract (an assumption about `StringUtils.hasText`); its effect on the filters is stated by `UsernameEq`, `TeamNameEq` and `BlankTextRestrictsNothing` |
| `MemberSearch.UsernameEq` | src/main/java/com/example/querydsl/entity/MemberRepositoryImpl.java:119-121 | a comparison exists iff the username has text; a tuple passes iff the username is absent or blank, or equals the member's username |
| `MemberSearch.TeamNameEq` | src/main/java/com/example/querydsl/entity/MemberRepositoryImpl.java:123-125 | a comparison exists iff the team name has text; it is on the joined team's name, which must equal it |
| `MemberSearch.AgeGoe` | src/main/java/com/example/querydsl/entity/MemberRepositoryImpl.java:127-129 | a comparison exists iff the bound is non-null; it keeps members whose non-null age is at least the bound, the bound included |
| `MemberSearch.AgeLoe` | src/main/java/com/example/querydsl/entity/MemberRepositoryImpl.java:131-133 | a comparison exists iff the bound is non-null; it keeps members whose non-null age is at most the bound, the bound included |
| `MemberSearch.LeftJoin` | src/main/java/com/example/querydsl/entity/MemberRepositoryImpl.java:36-37 | every member gives one joined tuple; the team columns are the team's for a member with a team and null otherwise |
| `MemberSearch.Where` | src/main/java/com/example/querydsl/entity/MemberRepositoryImpl.java:38-43 | four `where` arguments, one per condition field in source order; each is present exactly when its field has text or is non-null |
| `MemberSearch.AllOf` | src/main/java/com/example/querydsl/entity/MemberRepositoryImpl.java:38-43 | a tuple passes `where(..)` only if every non-null argument holds of it; the converse is `AllOfMeansEvery` |
| `MemberSearch.Project` | src/main/java/com/example/querydsl/entity/MemberRepositoryImpl.java:29-35 | no own contract; the projected columns are stated by `Dto` |
| `MemberSearch.Dto` | src/main/java/com/example/querydsl/entity/MemberRepositoryImpl.java:29-37 | the DTO carries the member's id, username and age; the team id is null exactly when the member has no team, and the team name is then null too; otherwise they are the team's id and name, the name itself nullable |
| `MemberSearch.Search` | src/main/java/com/example/querydsl/entity/MemberRepositoryImpl.java:26-45 | at most one DTO per stored row; what it returns is stated by `SearchAppend`, `SearchOne` and `SearchMembership` |
| `MemberSearch.Count` | src/main/java/com/example/querydsl/entity/MemberRepositoryImpl.java:80-91 | `fetchCount` counts at most every stored row; that it counts exactly the search's rows is `SearchLengthIsCount` |
| `MemberSearch.FetchResults` | src/main/java/com/example/querydsl/entity/MemberRepositoryImpl.java:49-67 | fetchResults reports the full count as its total and at most `limit` results, none when the count is zero |
| `MemberSearch.SearchPageSimple` | src/main/java/com/example/querydsl/entity/MemberRepositoryImpl.java:47-73 | the page carries the given request and at most a page of content; content and total are stated by `SearchPageSimpleContent` and `SearchPageSimpleTotal` |
| `MemberSearch.SearchPageComplex` | src/main/java/com/example/querydsl/entity/MemberRepositoryImpl.java:75-93 | the page carries the given request and at most a page of content; that it equals `searchPageSimple`'s page is `PoliciesAgree` |
| `MemberSearch.GetMemberTeamDtos` | src/main/java/com/example/querydsl/entity/MemberRepositoryImpl.java:95-117 | the content query returns at most a page of rows |
| `SearchProperties.AllOfMeansEvery` | src/main/java/com/example/querydsl/entity/MemberRepositoryImpl.java:38-43 | `where(..)` holds exactly when every non-null argument holds; null arguments are ignored |
| `SearchProperties.MatchesIffSatisfies` | src/main/java/com/example/querydsl/entity/MemberRepositoryImpl.java:38-43 | the composed where selects a row iff the row meets every present field of the condition, in both directions |
| `SearchProperties.AbsentFieldsComposeNothing` | src/main/java/com/example/querydsl/entity/MemberRepositoryImpl.java:38-43 | a condition with every field absent or blank yields no comparison at all |
| `SearchProperties.BlankTextRestrictsNothing` | src/main/java/com/example/querydsl/entity/MemberRepositoryImpl.java:119-125 | null, empty or whitespace-only text yields no comparison; text with a non-whitespace character yields a comparison against that text |
| `SearchProperties.TeamNameExcludesTeamless` | src/main/java/com/example/querydsl/entity/MemberRepositoryImpl.java:123-125 | while the team-name comparison is active, a member with no team never matches |
| `SearchProperties.EqualBoundsSelectExactAge` | src/main/java/com/example/querydsl/entity/MemberRepositoryImpl.java:127-133 | with no username or team-name filter, ageGoe = ageLoe = a selects exactly the members aged a |
| `SearchProperties.EqualBoundsForceAge` | src/main/java/com/example/querydsl/entity/MemberRepositoryImpl.java:127-133 | under any text filters, ageGoe = ageLoe = a selects only members aged a |
| `SearchProperties.BoundsAreInclusive` | src/main/java/com/example/querydsl/entity/MemberRepositoryImpl.java:127-133 | with no username or team-name filter and ageGoe ≤ ageLoe, a member whose age equals either bound is selected |
| `SearchProperties.CrossedBoundsSelectNothing` | src/main/java/com/example/querydsl/entity/MemberRepositoryImpl.java:127-133 | ageGoe > ageLoe selects no row, without an error |
| `SearchProperties.SearchAppend` | src/main/java/com/example/querydsl/entity/MemberRepositoryImpl.java:26-45 | search keeps store order: the result over a + b is the result over a followed by the result over b |
| `SearchProperties.SearchOne` | src/main/java/com/example/querydsl/entity/MemberRepositoryImpl.java:26-45 | one row gives its DTO if it satisfies the condition and nothing otherwise |
| `SearchProperties.SearchMembership` | src/main/java/com/example/querydsl/entity/MemberRepositoryImpl.java:26-45 | a DTO is in the result iff some stored row that satisfies the condition projects to it |
| `SearchProperties.SearchIdsDistinct` | src/main/java/com/example/querydsl/entity/MemberRepositoryImpl.java:26-45 | with distinct member ids in the store, no member appears twice in the result |
| `SearchProperties.SearchLengthIsCount` | src/main/java/com/example/querydsl/entity/MemberRepositoryImpl.java:80-89 | the count query over the same join and where counts exactly the rows the search returns |
| `SearchProperties.AbsentConditionReturnsAll` | src/main/java/com/example/querydsl/entity/MemberRepositoryImpl.java:38-43 | with every field absent or blank, the search returns every member's DTO, in store order |
| `SearchProperties.OuterJoinKeepsTeamless` | src/main/java/com/example/querydsl/entity/MemberRepositoryImpl.java:33-37 | a matching member without a team is in the result with null team id and team name |
| `SearchProperties.FetchResultsIsWindowAndCount` | src/main/java/com/example/querydsl/entity/MemberRepositoryImpl.java:49-67 | fetchResults returns the window of the search and the full count, also when the count is zero and it skips the content query |
| `SearchProperties.SearchPageSimpleContent` | src/main/java/com/example/querydsl/entity/MemberRepositoryImpl.java:47-73 | searchPageSimple's content is the matches from the offset, at most a page of them |
| `SearchProperties.SearchPageSimpleTotal` | src/main/java/com/example/querydsl/entity/MemberRepositoryImpl.java:47-73 | searchPageSimple's total is the number of all matches, whatever the page |
| `SearchProperties.PoliciesAgree` | src/main/java/com/example/querydsl/entity/MemberRepositoryImpl.java:75-93 | searchPageComplex returns the same page as searchPageSimple: the same content, page request and total |
| `SearchProperties.FirstShortPageSkipsCount` | src/main/java/com/example/querydsl/entity/MemberRepositoryImpl.java:80-91 | a first page shorter than the page size skips the count query, and its total is still the full count |
| `SearchProperties.LaterShortPageSkipsCount` | src/main/java/com/example/querydsl/entity/MemberRepositoryImpl.java:80-91 | a later page that is non-empty and shorter than the page size skips the count query, and its total is still the full count |
| `SearchProperties.SearchIsFirstLargePage` | src/main/java/com/example/querydsl/entity/MemberRepositoryImpl.java:75-117 | page 0 no smaller than the number of matches holds exactly the unpaged search result |
| `SeedData.RowOf` | src/main/java/com/example/querydsl/entity/Member.java:25-42 | a member entity has a store row once it and its team have ids; the row carries its id, username and age, and exactly when the entity has a team, that team's id and name |
| `SeedData.SeedMembers` | src/test/java/com/example/querydsl/entity/MemberRepositoryTest.java:40-54 | the four members built with `Member(username, age, team)` and persisted are the seeded rows |
| `SeedData.SearchTeamBAged35To40` | src/test/java/com/example/querydsl/entity/MemberRepositoryTest.java:56-65 | {ageGoe 35, ageLoe 40, teamName "teamB"} over the seeded members gives member4 only |
| `SeedData.SearchTeamB` | src/test/java/com/example/querydsl/repository/MemberJpaRepositoryTest.java:98-105 | the same fixture query {teamName "teamB"}, answered by `search`, gives member3 and member4 in that order |
| `SeedData.PagingByUsernameDescending` | src/test/java/com/example/querydsl/QuerydslBasicTest.java:207-217 | fetchResults with offset 1 and limit 2 over four members sorted by username descending gives member3 and member2, total 4 |
| `SeedData.LastPageOfThree` | src/main/java/com/example/querydsl/entity/MemberRepositoryImpl.java:91 | page 1 of size 3 over the seed is [member4] with total 4, found without the count query |

## Left out

- SQL generation and execution by Querydsl, JPA and Hibernate, the
  `EntityManager`, transactions and flushing: foreign library code. Only
  its relational meaning over the row sequence is modelled.
- Row order: the source sets no `orderBy`, so a real store may return rows
  in any order. The model fixes one order, the order of the row sequence.
- Id generation on persist: the examples assign ids by hand, in insertion
  order from 1.
- Lazy loading of `Member.team` and fetch joins: these belong to the ORM
  runtime.
- `Team.members`: this is the inverse side of the relation. The
  constructor sets it to empty, and the model never keeps it in step with
  the members' teams.
- Unpaged `Pageable`: `getOffset` throws on it, so neither `searchPageSimple`
  nor `searchPageComplex` (through `getMemberTeamDtos`) returns for an
  unpaged request. Only paged requests are modelled.
- Java integer widths: the model uses unbounded integers. Offset is page ×
  size in `long`, which cannot overflow for `int` page and size, and age is
  only compared, never computed, so nothing wraps.
- `Pageable` size: Spring rejects a zero page size when it builds the
  request. The model admits size 0, and the properties hold for it too.
- Text comparison: names are compared for exact character equality. A
  database collation that ignores case or trailing blanks is not modelled.
- `Character.isWhitespace` is modelled for the Java 9+ Unicode tables.
  U+180E, which Java 8 also treats as whitespace, is not included.
- `MemberTeamDto`, `MemberSearchCondition` and `MemberJpaRepository` are
  not part of this model. The DTO's and the condition's fields are taken
  from the projection and the getters the repository uses. Age is taken to
  be a nullable `Integer` in both.
- `MemberSearch.Search` and `MemberSearch.Count`: their own contracts only
  bound the result size. What they return is stated by the lemmas in
  `SearchProperties`.
- The count supplier of `getPage` is passed as the value it would return.
  Whether it is called is stated by `Paging.CountQueryRuns`, not as an
  effect.
- `MemberController`, `InitMember`, the root-package duplicate of `Member`,
  `MemberDto`, and the repository interfaces are HTTP routing, start-up
  seeding, a duplicate or declarations without logic.
- Team's Lombok `toString` is generated code outside the core.

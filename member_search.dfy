/** `MemberRepositoryImpl`: the dynamic member search. The database is an
    in-memory sequence of member rows in the order the store returns them;
    each row carries the team row its foreign key points to, if any. Every
    query of the source is modelled by its relational meaning: a left outer
    join of member to team, a conjunctive `where` built from the optional
    fields of the search condition, a projection to `MemberTeamDto`, and for
    the paged variants an offset and a limit. */
module MemberSearch {
  import opened Wrappers
  import opened Paging

  // ---------------------------------------------------------------------
  // Rows, condition and result

  /** A persisted team: the generated id and the name column. */
  datatype TeamRow = TeamRow(id: int, name: Option<string>)

  /** A persisted member: the generated id, the username and age columns,
      and the team reached through the `team_id` foreign key. */
  datatype MemberRow = MemberRow(id: int, username: Option<string>, age: Option<int>, team: Option<TeamRow>)

  /** One tuple of `from(member).leftJoin(member.team, team)`: the member,
      and the team's columns, null when the member has no team. */
  datatype Joined = Joined(member: MemberRow, teamId: Option<int>, teamName: Option<string>)

  /** `MemberTeamDto`: the projection `(member.id, member.username,
      member.age, team.id, team.name)`. */
  datatype MemberTeamDto = MemberTeamDto(
    memberId: int, username: Option<string>, age: Option<int>,
    teamId: Option<int>, teamName: Option<string>)

  /** `MemberSearchCondition`: four optional filter fields. */
  datatype MemberSearchCondition = MemberSearchCondition(
    username: Option<string>, teamName: Option<string>,
    ageGoe: Option<int>, ageLoe: Option<int>)

  // ---------------------------------------------------------------------
  // StringUtils.hasText (Spring), stated as an assumption

  /** `Character.isWhitespace`: the ASCII controls tab, line feed, vertical
      tab, form feed, carriage return and the four separators U+001C..U+001F,
      and the Unicode space, line and paragraph separators except the three
      non-breaking spaces U+00A0, U+2007 and U+202F. */
  predicate IsWhitespace(c: char) {
    || ('\t' <= c <= '\r')
    || ('\U{1C}' <= c <= ' ')
    || c == '\U{1680}'
    || ('\U{2000}' <= c <= '\U{2006}')
    || ('\U{2008}' <= c <= '\U{200A}')
    || c == '\U{2028}' || c == '\U{2029}'
    || c == '\U{205F}' || c == '\U{3000}'
  }

  /** `StringUtils.hasText`: not null, not empty, and some character is not
      whitespace. */
  predicate HasText(s: Option<string>) {
    s.Some? && |s.value| > 0 && exists i :: 0 <= i < |s.value| && !IsWhitespace(s.value[i])
  }

  // ---------------------------------------------------------------------
  // Predicate composer

  /** One comparison of a `where` clause. */
  datatype Fragment =
    | UsernameIs(username: string)   // member.username.eq(..)
    | TeamNameIs(teamName: string)   // team.name.eq(..)
    | AgeAtLeast(bound: int)         // member.age.goe(..)
    | AgeAtMost(bound: int)          // member.age.loe(..)

  /** The SQL meaning of a comparison on a joined tuple. A comparison with a
      NULL column is not true, so such a tuple is not selected. */
  predicate Holds(f: Fragment, j: Joined) {
    match f
    case UsernameIs(u) => j.member.username == Some(u)
    case TeamNameIs(n) => j.teamName == Some(n)
    case AgeAtLeast(b) => j.member.age.Some? && j.member.age.value >= b
    case AgeAtMost(b) => j.member.age.Some? && j.member.age.value <= b
  }

  /** A `where` argument: `null` (None) restricts nothing. */
  predicate Admits(f: Option<Fragment>, j: Joined) {
    f.None? || Holds(f.value, j)
  }

  /** `usernameEq`: a comparison only when the username has text. */
  function UsernameEq(username: Option<string>): (f: Option<Fragment>)
    ensures f.Some? <==> HasText(username)
    ensures forall j :: Admits(f, j) <==> (HasText(username) ==> j.member.username == username)
  {
    if HasText(username) then Some(UsernameIs(username.value)) else None
  }

  /** `teamNameEq`: a comparison on the joined team only when the name has text. */
  function TeamNameEq(teamName: Option<string>): (f: Option<Fragment>)
    ensures f.Some? <==> HasText(teamName)
    ensures forall j :: Admits(f, j) <==> (HasText(teamName) ==> j.teamName == teamName)
  {
    if HasText(teamName) then Some(TeamNameIs(teamName.value)) else None
  }

  /** `ageGoe`: an inclusive lower bound only when one is given. */
  function AgeGoe(ageGoe: Option<int>): (f: Option<Fragment>)
    ensures f.Some? <==> ageGoe.Some?
    ensures forall j :: Admits(f, j) <==>
      (ageGoe.Some? ==> j.member.age.Some? && ageGoe.value <= j.member.age.value)
  {
    if ageGoe.Some? then Some(AgeAtLeast(ageGoe.value)) else None
  }

  /** `ageLoe`: an inclusive upper bound only when one is given. */
  function AgeLoe(ageLoe: Option<int>): (f: Option<Fragment>)
    ensures f.Some? <==> ageLoe.Some?
    ensures forall j :: Admits(f, j) <==>
      (ageLoe.Some? ==> j.member.age.Some? && j.member.age.value <= ageLoe.value)
  {
    if ageLoe.Some? then Some(AgeAtMost(ageLoe.value)) else None
  }

  /** The four arguments every query of the repository passes to `where`. */
  function Where(c: MemberSearchCondition): (fs: seq<Option<Fragment>>)
    ensures |fs| == 4
    ensures fs[0].Some? <==> HasText(c.username)
    ensures fs[1].Some? <==> HasText(c.teamName)
    ensures fs[2].Some? <==> c.ageGoe.Some?
    ensures fs[3].Some? <==> c.ageLoe.Some?
  {
    [UsernameEq(c.username), TeamNameEq(c.teamName), AgeGoe(c.ageGoe), AgeLoe(c.ageLoe)]
  }

  /** `where(f1, .., fn)`: null arguments are skipped, the others AND-ed. */
  predicate AllOf(fs: seq<Option<Fragment>>, j: Joined)
    ensures AllOf(fs, j) ==> forall i :: 0 <= i < |fs| && fs[i].Some? ==> Holds(fs[i].value, j)
    decreases |fs|
  {
    if fs == [] then true
    else if fs[0].None? then AllOf(fs[1..], j)
    else Holds(fs[0].value, j) && AllOf(fs[1..], j)
  }

  /** The condition as a direct statement about a member row, for comparison
      with the composed query. */
  predicate Satisfies(c: MemberSearchCondition, r: MemberRow) {
    && (HasText(c.username) ==> r.username == c.username)
    && (HasText(c.teamName) ==> r.team.Some? && r.team.value.name == c.teamName)
    && (c.ageGoe.Some? ==> r.age.Some? && c.ageGoe.value <= r.age.value)
    && (c.ageLoe.Some? ==> r.age.Some? && r.age.value <= c.ageLoe.value)
  }

  // ---------------------------------------------------------------------
  // Search executor

  /** `leftJoin(member.team, team)` applied to one member row. */
  function LeftJoin(r: MemberRow): (j: Joined)
    ensures j.member == r
    ensures j.teamId.Some? <==> r.team.Some?
    ensures r.team.Some? ==> j.teamId == Some(r.team.value.id) && j.teamName == r.team.value.name
    ensures r.team.None? ==> j.teamName.None?
  {
    match r.team
    case None => Joined(r, None, None)
    case Some(t) => Joined(r, Some(t.id), t.name)
  }

  /** `new QMemberTeamDto(member.id, member.username, member.age, team.id, team.name)`. */
  function Project(j: Joined): MemberTeamDto {
    MemberTeamDto(j.member.id, j.member.username, j.member.age, j.teamId, j.teamName)
  }

  /** The DTO a member row is projected to: the member's columns; the team
      id is null exactly for a member without a team, whose team name is
      then null too, and otherwise the team name is the team's (itself
      nullable). */
  function Dto(r: MemberRow): (d: MemberTeamDto)
    ensures d.memberId == r.id && d.username == r.username && d.age == r.age
    ensures d.teamId.None? <==> r.team.None?
    ensures r.team.None? ==> d.teamName.None?
    ensures r.team.Some? ==> d.teamId == Some(r.team.value.id) && d.teamName == r.team.value.name
  {
    Project(LeftJoin(r))
  }

  /** Whether the composed `where` selects the joined tuple of a row. */
  predicate Matches(c: MemberSearchCondition, r: MemberRow) {
    AllOf(Where(c), LeftJoin(r))
  }

  /** `search(condition)`: the joined, filtered and projected rows, in store order. */
  function Search(rows: seq<MemberRow>, c: MemberSearchCondition): (dtos: seq<MemberTeamDto>)
    ensures |dtos| <= |rows|
    decreases |rows|
  {
    if rows == [] then []
    else (if Matches(c, rows[0]) then [Dto(rows[0])] else []) + Search(rows[1..], c)
  }

  /** `fetchCount()` of the same join and `where`: the number of selected rows. */
  function Count(rows: seq<MemberRow>, c: MemberSearchCondition): (n: nat)
    ensures n <= |rows|
    decreases |rows|
  {
    if rows == [] then 0
    else (if Matches(c, rows[0]) then 1 else 0) + Count(rows[1..], c)
  }

  /** Querydsl's `QueryResults`: a window of results and the total behind it. */
  datatype QueryResults<T> = QueryResults(results: seq<T>, total: nat)

  /** `fetchResults()` of the search query with `offset` and `limit`: the
      count query runs first, and the content query only when the count is
      positive. */
  function FetchResults(rows: seq<MemberRow>, c: MemberSearchCondition, offset: nat, limit: nat)
    : (qr: QueryResults<MemberTeamDto>)
    ensures qr.total == Count(rows, c)
    ensures |qr.results| <= limit
    ensures qr.total == 0 ==> qr.results == []
  {
    var total := Count(rows, c);
    if total > 0 then QueryResults(Window(Search(rows, c), offset, limit), total)
    else QueryResults([], 0)
  }

  // ---------------------------------------------------------------------
  // Paging policies

  /** `searchPageSimple`: content and total from one `fetchResults()`. */
  function SearchPageSimple(rows: seq<MemberRow>, c: MemberSearchCondition, p: Pageable)
    : (pg: Page<MemberTeamDto>)
    ensures pg.pageable == p && |pg.content| <= p.pageSize
  {
    var results := FetchResults(rows, c, p.Offset(), p.pageSize);
    NewPage(results.results, p, results.total)
  }

  /** `getMemberTeamDtos`: the content query with the page's offset and limit. */
  function GetMemberTeamDtos(rows: seq<MemberRow>, c: MemberSearchCondition, p: Pageable)
    : (content: seq<MemberTeamDto>)
    ensures |content| <= p.pageSize
  {
    Window(Search(rows, c), p.Offset(), p.pageSize)
  }

  /** `searchPageComplex`: the content query, then `getPage` with the
      separate count query of the same join and `where`. */
  function SearchPageComplex(rows: seq<MemberRow>, c: MemberSearchCondition, p: Pageable)
    : (pg: Page<MemberTeamDto>)
    ensures pg.pageable == p && |pg.content| <= p.pageSize
  {
    GetPage(GetMemberTeamDtos(rows, c, p), p, Count(rows, c))
  }

  /** Whether `searchPageComplex` issues its count query. */
  predicate ComplexRunsCount(rows: seq<MemberRow>, c: MemberSearchCondition, p: Pageable) {
    CountQueryRuns(|GetMemberTeamDtos(rows, c, p)|, p)
  }
}

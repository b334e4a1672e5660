/** What the member search promises, proved about the model in module
    MemberSearch: the meaning of the composed `where`, the shape of the
    search result, and the agreement of the two paging policies. */
module SearchProperties {
  import opened Wrappers
  import opened Paging
  import opened MemberSearch

  // ---------------------------------------------------------------------
  // Predicate composer

  /** `where(..)` holds exactly when every non-null argument holds. */
  lemma {:induction false} AllOfMeansEvery(fs: seq<Option<Fragment>>, j: Joined)
    ensures AllOf(fs, j) <==> forall i :: 0 <= i < |fs| ==> Admits(fs[i], j)
    decreases |fs|
  {
    if fs != [] {
      AllOfMeansEvery(fs[1..], j);
      assert forall i :: 1 <= i < |fs| ==> fs[i] == fs[1..][i - 1];
    }
  }

  /** The composed query selects a row exactly when the row satisfies every
      present field of the condition. */
  lemma MatchesIffSatisfies(c: MemberSearchCondition, r: MemberRow)
    ensures Matches(c, r) <==> Satisfies(c, r)
  {
    var fs, j := Where(c), LeftJoin(r);
    AllOfMeansEvery(fs, j);
    assert Admits(fs[0], j) <==> (HasText(c.username) ==> r.username == c.username);
    assert Admits(fs[1], j) <==> (HasText(c.teamName) ==> j.teamName == c.teamName);
    assert Admits(fs[2], j) <==> (c.ageGoe.Some? ==> r.age.Some? && c.ageGoe.value <= r.age.value);
    assert Admits(fs[3], j) <==> (c.ageLoe.Some? ==> r.age.Some? && r.age.value <= c.ageLoe.value);
  }

  /** A condition whose every field is absent (or blank) composes to no comparison at all. */
  lemma AbsentFieldsComposeNothing(c: MemberSearchCondition)
    requires !HasText(c.username) && !HasText(c.teamName) && c.ageGoe.None? && c.ageLoe.None?
    ensures forall i :: 0 <= i < |Where(c)| ==> Where(c)[i].None?
  {
  }

  /** Null, empty and whitespace-only text restricts nothing; text with a
      non-whitespace character yields a comparison against exactly that text. */
  lemma BlankTextRestrictsNothing(s: Option<string>)
    ensures (s.None? || forall i :: 0 <= i < |s.value| ==> IsWhitespace(s.value[i])) ==>
      UsernameEq(s).None? && TeamNameEq(s).None?
    ensures (s.Some? && exists i :: 0 <= i < |s.value| && !IsWhitespace(s.value[i])) ==>
      UsernameEq(s) == Some(UsernameIs(s.value)) && TeamNameEq(s) == Some(TeamNameIs(s.value))
  {
  }

  /** While the team name is active, a member without a team never matches. */
  lemma TeamNameExcludesTeamless(c: MemberSearchCondition, r: MemberRow)
    requires HasText(c.teamName) && r.team.None?
    ensures !Matches(c, r)
  {
    MatchesIffSatisfies(c, r);
  }

  /** With ageGoe = ageLoe = a and no text filter, exactly the members aged a match. */
  lemma EqualBoundsSelectExactAge(c: MemberSearchCondition, r: MemberRow, a: int)
    requires !HasText(c.username) && !HasText(c.teamName)
    requires c.ageGoe == Some(a) && c.ageLoe == Some(a)
    ensures Matches(c, r) <==> r.age == Some(a)
  {
    MatchesIffSatisfies(c, r);
  }

  /** Equal bounds admit only that age, whatever the text filters say. */
  lemma EqualBoundsForceAge(c: MemberSearchCondition, r: MemberRow, a: int)
    requires c.ageGoe == Some(a) && c.ageLoe == Some(a) && Matches(c, r)
    ensures r.age == Some(a)
  {
    MatchesIffSatisfies(c, r);
  }

  /** Both bounds are inclusive: a member aged exactly at a bound is kept by it. */
  lemma BoundsAreInclusive(c: MemberSearchCondition, r: MemberRow)
    requires c.ageGoe.Some? && c.ageLoe.Some? && r.age.Some?
    requires r.age.value == c.ageGoe.value || r.age.value == c.ageLoe.value
    requires c.ageGoe.value <= c.ageLoe.value
    requires !HasText(c.username) && !HasText(c.teamName)
    ensures Matches(c, r)
  {
    MatchesIffSatisfies(c, r);
  }

  // ---------------------------------------------------------------------
  // Search executor

  /** Search distributes over the store's order: rows earlier in the store
      come earlier in the result. */
  lemma {:induction false} SearchAppend(a: seq<MemberRow>, b: seq<MemberRow>, c: MemberSearchCondition)
    ensures Search(a + b, c) == Search(a, c) + Search(b, c)
    decreases |a|
  {
    if a == [] {
      assert a + b == b;
    } else {
      assert (a + b)[0] == a[0];
      assert (a + b)[1..] == a[1..] + b;
      SearchAppend(a[1..], b, c);
    }
  }

  /** A single row yields its DTO when it satisfies the condition, and nothing otherwise. */
  lemma SearchOne(r: MemberRow, c: MemberSearchCondition)
    ensures Search([r], c) == if Satisfies(c, r) then [Dto(r)] else []
  {
    MatchesIffSatisfies(c, r);
    assert [r][1..] == [];
  }

  /** A DTO is in the result exactly when some stored row satisfying the
      condition projects to it. */
  lemma {:induction false} SearchMembership(rows: seq<MemberRow>, c: MemberSearchCondition, d: MemberTeamDto)
    ensures d in Search(rows, c) <==>
      exists i :: 0 <= i < |rows| && Satisfies(c, rows[i]) && Dto(rows[i]) == d
    decreases |rows|
  {
    if rows != [] {
      SearchMembership(rows[1..], c, d);
      MatchesIffSatisfies(c, rows[0]);
      if exists i :: 0 <= i < |rows| && Satisfies(c, rows[i]) && Dto(rows[i]) == d {
        var i :| 0 <= i < |rows| && Satisfies(c, rows[i]) && Dto(rows[i]) == d;
        if i > 0 {
          assert rows[1..][i - 1] == rows[i];
        }
      }
      if exists k :: 0 <= k < |rows[1..]| && Satisfies(c, rows[1..][k]) && Dto(rows[1..][k]) == d {
        var k :| 0 <= k < |rows[1..]| && Satisfies(c, rows[1..][k]) && Dto(rows[1..][k]) == d;
        assert rows[k + 1] == rows[1..][k];
      }
    }
  }

  /** The search returns one DTO per selected row: as many as the count query counts. */
  lemma {:induction false} SearchLengthIsCount(rows: seq<MemberRow>, c: MemberSearchCondition)
    ensures |Search(rows, c)| == Count(rows, c)
    decreases |rows|
  {
    if rows != [] {
      SearchLengthIsCount(rows[1..], c);
    }
  }

  /** With every field absent or blank, the search returns every member, in store order. */
  lemma {:induction false} AbsentConditionReturnsAll(rows: seq<MemberRow>, c: MemberSearchCondition)
    requires !HasText(c.username) && !HasText(c.teamName) && c.ageGoe.None? && c.ageLoe.None?
    ensures |Search(rows, c)| == |rows|
    ensures forall i :: 0 <= i < |rows| ==> Search(rows, c)[i] == Dto(rows[i])
    decreases |rows|
  {
    if rows != [] {
      AbsentConditionReturnsAll(rows[1..], c);
      MatchesIffSatisfies(c, rows[0]);
      var s := Search(rows, c);
      assert s == [Dto(rows[0])] + Search(rows[1..], c);
      forall i | 1 <= i < |rows|
        ensures s[i] == Dto(rows[i])
      {
        assert rows[1..][i - 1] == rows[i];
      }
    }
  }

  /** ageGoe greater than ageLoe selects no row, and is not an error. */
  lemma {:induction false} CrossedBoundsSelectNothing(rows: seq<MemberRow>, c: MemberSearchCondition)
    requires c.ageGoe.Some? && c.ageLoe.Some? && c.ageGoe.value > c.ageLoe.value
    ensures Search(rows, c) == []
    decreases |rows|
  {
    if rows != [] {
      MatchesIffSatisfies(c, rows[0]);
      CrossedBoundsSelectNothing(rows[1..], c);
    }
  }

  /** The outer join keeps a member without a team, with null team columns,
      whenever the condition does not ask for a team name. */
  lemma OuterJoinKeepsTeamless(rows: seq<MemberRow>, c: MemberSearchCondition, i: nat)
    requires i < |rows| && rows[i].team.None? && Satisfies(c, rows[i])
    ensures MemberTeamDto(rows[i].id, rows[i].username, rows[i].age, None, None) in Search(rows, c)
  {
    SearchMembership(rows, c, Dto(rows[i]));
  }

  /** With distinct member ids in the store, no member appears twice in the result. */
  lemma {:induction false} SearchIdsDistinct(rows: seq<MemberRow>, c: MemberSearchCondition)
    requires forall i, k :: 0 <= i < k < |rows| ==> rows[i].id != rows[k].id
    ensures forall i, k :: 0 <= i < k < |Search(rows, c)| ==>
      Search(rows, c)[i].memberId != Search(rows, c)[k].memberId
    decreases |rows|
  {
    if rows != [] {
      var rest := rows[1..];
      SearchIdsDistinct(rest, c);
      var tail := Search(rest, c);
      forall k | 0 <= k < |tail|
        ensures tail[k].memberId != rows[0].id
      {
        SearchMembership(rest, c, tail[k]);
        var m :| 0 <= m < |rest| && Satisfies(c, rest[m]) && Dto(rest[m]) == tail[k];
        assert rest[m] == rows[m + 1];
      }
    }
  }

  // ---------------------------------------------------------------------
  // Paging policies

  /** fetchResults gives the window of the search and the full count, also
      when it skips the content query because the count is zero. */
  lemma FetchResultsIsWindowAndCount(rows: seq<MemberRow>, c: MemberSearchCondition, offset: nat, limit: nat)
    ensures FetchResults(rows, c, offset, limit) == QueryResults(Window(Search(rows, c), offset, limit), Count(rows, c))
  {
  }

  /** searchPageSimple's content: the matching rows from the offset, at
      most a page of them. */
  lemma SearchPageSimpleContent(rows: seq<MemberRow>, c: MemberSearchCondition, p: Pageable)
    ensures SearchPageSimple(rows, c, p).content == Window(Search(rows, c), p.Offset(), p.pageSize)
  {
    FetchResultsIsWindowAndCount(rows, c, p.Offset(), p.pageSize);
  }

  /** searchPageSimple's total: the number of all matching rows, whatever the page. */
  lemma SearchPageSimpleTotal(rows: seq<MemberRow>, c: MemberSearchCondition, p: Pageable)
    ensures SearchPageSimple(rows, c, p).total == Count(rows, c)
  {
    FetchResultsIsWindowAndCount(rows, c, p.Offset(), p.pageSize);
    SearchLengthIsCount(rows, c);
    PageImplKeepsExactTotal(|Window(Search(rows, c), p.Offset(), p.pageSize)|, p, Count(rows, c));
  }

  /** The two paging policies give the same page: the same content, the same
      page request and the same total. */
  lemma PoliciesAgree(rows: seq<MemberRow>, c: MemberSearchCondition, p: Pageable)
    ensures SearchPageComplex(rows, c, p) == SearchPageSimple(rows, c, p)
  {
    SearchPageSimpleContent(rows, c, p);
    SearchPageSimpleTotal(rows, c, p);
    SearchLengthIsCount(rows, c);
    GetPageTotalIsExact(GetMemberTeamDtos(rows, c, p), p, Count(rows, c));
  }

  /** On the first page, content shorter than the page size makes
      searchPageComplex skip its count query and still report the full count. */
  lemma FirstShortPageSkipsCount(rows: seq<MemberRow>, c: MemberSearchCondition, p: Pageable, anyCount: nat)
    requires p.Offset() == 0 && |GetMemberTeamDtos(rows, c, p)| < p.pageSize
    ensures !ComplexRunsCount(rows, c, p)
    ensures SearchPageComplex(rows, c, p).total == Count(rows, c)
    ensures GetPage(GetMemberTeamDtos(rows, c, p), p, anyCount) == SearchPageComplex(rows, c, p)
  {
  }

  /** On a later page, short but non-empty content also fixes the total
      without the count query. */
  lemma LaterShortPageSkipsCount(rows: seq<MemberRow>, c: MemberSearchCondition, p: Pageable, anyCount: nat)
    requires p.Offset() > 0 && 0 < |GetMemberTeamDtos(rows, c, p)| < p.pageSize
    ensures !ComplexRunsCount(rows, c, p)
    ensures SearchPageComplex(rows, c, p).total == Count(rows, c)
    ensures GetPage(GetMemberTeamDtos(rows, c, p), p, anyCount) == SearchPageComplex(rows, c, p)
  {
    PoliciesAgree(rows, c, p);
    SearchPageSimpleContent(rows, c, p);
    SearchPageSimpleTotal(rows, c, p);
    GetPageIgnoresSkippedCount(GetMemberTeamDtos(rows, c, p), p, anyCount, Count(rows, c));
  }

  /** The unpaged search is the content of the first page once the page is
      at least as large as the number of matches. */
  lemma SearchIsFirstLargePage(rows: seq<MemberRow>, c: MemberSearchCondition, p: Pageable)
    requires p.pageNumber == 0 && p.pageSize >= Count(rows, c)
    ensures SearchPageComplex(rows, c, p).content == Search(rows, c)
    ensures SearchPageComplex(rows, c, p).total == |Search(rows, c)|
  {
    SearchLengthIsCount(rows, c);
    PoliciesAgree(rows, c, p);
    SearchPageSimpleContent(rows, c, p);
    SearchPageSimpleTotal(rows, c, p);
    var s := Search(rows, c);
    assert Window(s, 0, p.pageSize) == s;
  }
}
